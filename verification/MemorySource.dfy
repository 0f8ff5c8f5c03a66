/** The in-memory source of rust/src/memory_source.rs: a primary index, secondary indexes built
    on demand, writes to all of them, and constrained fetches by index seek. */
module MemorySource {
  import opened Values
  import opened Order
  import opened Lists
  import opened Changes
  import BT = BTree
  import CU = Cursor

  type Indexes = map<Sort, BT.Tree>
  type Constraint = seq<(ColId, Value)>

  datatype Start = Start(row: Row, after: bool)
  datatype Request = Request(constraint: Option<Constraint>, start: Option<Start>, reverse: bool)

  function PrimarySort(pk: seq<ColId>): Sort {
    if pk == [] then [] else [(pk[0], true)] + PrimarySort(pk[1..])
  }

  /** `assert_ordering_includes_pk` */
  predicate IncludesPk(sort: Sort, pk: seq<ColId>) {
    forall p :: p in pk ==> exists e :: e in sort && e.0 == p
  }

  /** Every index is a valid tree for its own sort, and the primary index is there. */
  ghost predicate Trees(pk: seq<ColId>, ix: Indexes) {
    && PrimarySort(pk) in ix
    && forall s :: s in ix ==> IncludesPk(s, pk) && BT.Ok(SortLt(s), ix[s])
  }

  ghost function Primary(pk: seq<ColId>, ix: Indexes): seq<Row>
    requires PrimarySort(pk) in ix
  {
    BT.Contents(ix[PrimarySort(pk)])
  }

  ghost predicate SameMembers(a: seq<Row>, b: seq<Row>) {
    forall r :: r in a <==> r in b
  }

  /** Every index holds exactly the primary's rows. */
  ghost predicate Agree(pk: seq<ColId>, ix: Indexes) {
    && PrimarySort(pk) in ix
    && forall s :: s in ix ==> SameMembers(BT.Contents(ix[s]), Primary(pk, ix))
  }

  // ---- one write, seen from a finer order ----

  lemma {:induction false} PrimaryColumns(pk: seq<ColId>)
    ensures forall e :: e in PrimarySort(pk) <==> e.1 && e.0 in pk
  {
    if pk != [] { PrimaryColumns(pk[1..]); }
  }

  /** Rows that tie in an index that includes the primary key tie in the primary. */
  lemma Finer(sort: Sort, pk: seq<ColId>, a: Row, b: Row)
    requires IncludesPk(sort, pk) && SameKey(SortLt(sort), a, b)
    ensures SameKey(SortLt(PrimarySort(pk)), a, b)
  {
    SortIsStrictWeak(sort);
    SortIsStrictWeak(PrimarySort(pk));
    PrimaryColumns(pk);
    assert SameSortKey(sort, a, b);
    forall c | c in PrimarySort(pk) ensures Col(a, c.0) == Col(b, c.0) {
      var e :| e in sort && e.0 == c.0;
    }
  }

  ghost predicate Refines(lt: Lt, plt: Lt) {
    forall a, b {:trigger lt(a, b)} :: SameKey(lt, a, b) ==> SameKey(plt, a, b)
  }

  /** What a legal change does to the rows, independent of any order. */
  ghost predicate Net(before: seq<Row>, c: SourceChange, after: seq<Row>) {
    forall r :: r in after <==>
      match c
      case Add(x) => r == x || r in before
      case Remove(x) => r in before && r != x
      case Edit(old_, x) => r == x || (r in before && r != old_)
  }

  /** Row by row, a legal change in any order that refines the primary's is the net change. */
  lemma {:induction false} WriteNet(plt: Lt, lt: Lt, p: seq<Row>, s: seq<Row>, c: SourceChange)
    requires StrictWeak(plt) && StrictWeak(lt) && Refines(lt, plt)
    requires Sorted(plt, p) && Sorted(lt, s) && SameMembers(s, p) && Legal(plt, p, c)
    ensures Net(s, c, Applied(lt, s, c))
  {
    hide Insert;
    hide Order.Remove;
    hide Hit;
    forall r ensures r in Applied(lt, s, c) <==>
        match c
        case Add(x) => r == x || r in s
        case Remove(x) => r in s && r != x
        case Edit(old_, x) => r == x || (r in s && r != old_)
    {
      match c {
        case Add(x) =>
          InsertMembers(lt, s, x, r);
          if r in s { Collides(plt, lt, p, x, r); }
        case Remove(x) =>
          RemoveMembers(lt, s, x, r);
          if r in s { Gone(lt, s, x, r); }
        case Edit(old_, x) =>
          RemoveMembers(lt, s, old_, r);
          InsertMembers(lt, Order.Remove(lt, s, old_), x, r);
          if r in s {
            Gone(lt, s, old_, r);
            Lands(plt, lt, p, old_, x, r);
          }
      }
    }
  }

  lemma Collides(plt: Lt, lt: Lt, p: seq<Row>, x: Row, r: Row)
    requires StrictWeak(plt) && Refines(lt, plt) && Sorted(plt, p) && r in p
    ensures SameKey(lt, x, r) ==> Hit(plt, p, x)
  {
    hide Hit;
    HitIffPresent(plt, p, x);
  }

  lemma Gone(lt: Lt, s: seq<Row>, x: Row, r: Row)
    requires StrictWeak(lt) && Sorted(lt, s) && x in s && r in s
    ensures SameKey(lt, x, r) <==> r == x
  {
    Laws(lt, x, x, x);
    if SameKey(lt, x, r) { KeyIdentifies(lt, s, x, r); }
  }

  lemma {:induction false} Lands(plt: Lt, lt: Lt, p: seq<Row>, old_: Row, x: Row, r: Row)
    requires StrictWeak(plt) && Refines(lt, plt) && Sorted(plt, p)
    requires old_ in p && (SameKey(plt, old_, x) || !Hit(plt, p, x)) && r in p
    ensures SameKey(lt, x, r) ==> r == old_
  {
    hide Hit;
    Collides(plt, lt, p, x, r);
    if SameKey(plt, old_, x) && SameKey(lt, x, r) {
      AllLaws(plt);
      KeyIdentifies(plt, p, old_, r);
    }
  }

  /** The rows whose key in this order a change names: the key of its row, and for an edit also
      that of its old row. */
  predicate Hits(lt: Lt, c: SourceChange, r: Row) {
    SameKey(lt, c.row, r) || (c.Edit? && SameKey(lt, c.old_, r))
  }

  /** Any change, legal or not, drops the rows it hits and then puts its row in, unless it is a
      removal. */
  lemma {:induction false} AppliedMembers(lt: Lt, s: seq<Row>, c: SourceChange, r: Row)
    requires StrictWeak(lt) && Sorted(lt, s)
    ensures r in Applied(lt, s, c) <==> (!c.Remove? && r == c.row) || (r in s && !Hits(lt, c, r))
  {
    hide Insert;
    hide Order.Remove;
    match c {
      case Add(x) => InsertMembers(lt, s, x, r);
      case Remove(x) => RemoveMembers(lt, s, x, r);
      case Edit(old_, x) =>
        RemoveMembers(lt, s, old_, r);
        InsertMembers(lt, Order.Remove(lt, s, old_), x, r);
    }
  }

  /** What a change must satisfy to be one change in every index: a stored row it hits in the
      primary it hits in each index too. */
  ghost predicate Ties(pk: seq<ColId>, ix: Indexes, c: SourceChange)
    requires PrimarySort(pk) in ix
  {
    forall s, r :: s in ix && r in Primary(pk, ix) && Hits(SortLt(PrimarySort(pk)), c, r) ==> Hits(SortLt(s), c, r)
  }

  lemma {:induction false} HitsFiner(pk: seq<ColId>, s: Sort, c: SourceChange, r: Row)
    requires IncludesPk(s, pk)
    ensures Hits(SortLt(s), c, r) ==> Hits(SortLt(PrimarySort(pk)), c, r)
    ensures Hits(SortLt(s), c, c.row)
  {
    if SameKey(SortLt(s), c.row, r) { Finer(s, pk, c.row, r); }
    if c.Edit? && SameKey(SortLt(s), c.old_, r) { Finer(s, pk, c.old_, r); }
    SortIsStrictWeak(s);
    Laws(SortLt(s), c.row, c.row, c.row);
  }

  /** One index against the primary after a change. */
  lemma {:induction false} IndexAgrees(pk: seq<ColId>, s: Sort, rows: seq<Row>, p: seq<Row>, c: SourceChange)
    requires IncludesPk(s, pk) && Sorted(SortLt(s), rows) && Sorted(SortLt(PrimarySort(pk)), p) && SameMembers(rows, p)
    ensures SameMembers(Applied(SortLt(s), rows, c), Applied(SortLt(PrimarySort(pk)), p, c))
      <==> forall r :: r in p && Hits(SortLt(PrimarySort(pk)), c, r) ==> Hits(SortLt(s), c, r)
  {
    hide Applied;
    hide SortLt;
    hide Hits;
    var (lt, plt) := (SortLt(s), SortLt(PrimarySort(pk)));
    SortIsStrictWeak(s);
    SortIsStrictWeak(PrimarySort(pk));
    forall r
      ensures r in Applied(lt, rows, c) <==> (!c.Remove? && r == c.row) || (r in p && !Hits(lt, c, r))
      ensures r in Applied(plt, p, c) <==> (!c.Remove? && r == c.row) || (r in p && !Hits(plt, c, r))
      ensures Hits(lt, c, r) ==> Hits(plt, c, r)
      ensures Hits(lt, c, c.row)
    {
      AppliedMembers(lt, rows, c, r);
      AppliedMembers(plt, p, c, r);
      HitsFiner(pk, s, c, r);
    }
  }

  /** Exactly when a write, legal or not, leaves indexes that agreed in agreement. */
  lemma {:induction false} AgreeIff(pk: seq<ColId>, ix: Indexes, c: SourceChange, ix': Indexes)
    requires Trees(pk, ix) && Agree(pk, ix) && Written(ix, c, ix')
    ensures Agree(pk, ix') <==> Ties(pk, ix, c)
  {
    hide Applied;
    hide Hits;
    hide IncludesPk;
    hide SameMembers;
    hide SortLt;
    PrimarySorted(pk, ix);
    var p := Primary(pk, ix);
    forall s | s in ix
      ensures SameMembers(BT.Contents(ix'[s]), Primary(pk, ix'))
        <==> forall r :: r in p && Hits(SortLt(PrimarySort(pk)), c, r) ==> Hits(SortLt(s), c, r)
    {
      IndexAgrees(pk, s, BT.Contents(ix[s]), p, c);
    }
    if Agree(pk, ix') {
      forall s, r | s in ix && r in p && Hits(SortLt(PrimarySort(pk)), c, r) ensures Hits(SortLt(s), c, r) {
        assert SameMembers(BT.Contents(ix'[s]), Primary(pk, ix'));
      }
    }
  }

  /** A legal change hits in the primary only rows it names exactly. */
  lemma {:induction false} LegalTies(pk: seq<ColId>, ix: Indexes, c: SourceChange)
    requires Trees(pk, ix) && Legal(SortLt(PrimarySort(pk)), Primary(pk, ix), c)
    ensures Ties(pk, ix, c)
  {
    PrimarySorted(pk, ix);
    var (p, plt) := (Primary(pk, ix), SortLt(PrimarySort(pk)));
    forall s, r | s in ix && r in p && Hits(plt, c, r) ensures Hits(SortLt(s), c, r) {
      LegalHit(plt, p, c, r);
      SortIsStrictWeak(s);
      Laws(SortLt(s), r, r, r);
    }
  }

  lemma {:induction false} LegalHit(lt: Lt, p: seq<Row>, c: SourceChange, r: Row)
    requires StrictWeak(lt) && Sorted(lt, p) && Legal(lt, p, c) && r in p && Hits(lt, c, r)
    ensures r == if c.Edit? then c.old_ else c.row
  {
    hide Hit;
    AllLaws(lt);
    HitIffPresent(lt, p, c.row);
    if !c.Add? { KeyIdentifies(lt, p, if c.Edit? then c.old_ else c.row, r); }
  }

  // ---- building an index ----

  /** A stable sort by a comparator, as `sort_by` promises. */
  function StableSort(lt: Lt, rows: seq<Row>): seq<Row> {
    if rows == [] then [] else Placed(lt, StableSort(lt, rows[..|rows| - 1]), rows[|rows| - 1])
  }

  function Placed(lt: Lt, s: seq<Row>, r: Row): seq<Row> {
    if s == [] then [r]
    else if lt(r, s[0]) then [r] + s
    else [s[0]] + Placed(lt, s[1..], r)
  }

  lemma {:induction false} PlacedMembers(lt: Lt, s: seq<Row>, r: Row, x: Row)
    ensures x in Placed(lt, s, r) <==> x == r || x in s
  {
    if s != [] && !lt(r, s[0]) { PlacedMembers(lt, s[1..], r, x); }
  }

  lemma {:induction false} PlacedSorted(lt: Lt, s: seq<Row>, r: Row)
    requires StrictWeak(lt) && Sorted(lt, s) && forall x :: x in s ==> !SameKey(lt, x, r)
    ensures Sorted(lt, Placed(lt, s, r))
  {
    if s == [] { return; }
    AllLaws(lt);
    if !lt(r, s[0]) {
      var t := Placed(lt, s[1..], r);
      PlacedSorted(lt, s[1..], r);
      forall x | x in t ensures lt(s[0], x) {
        PlacedMembers(lt, s[1..], r, x);
        assert s[0] in s;
      }
      Fronted(lt, s[0], t);
    }
  }

  lemma Fronted(lt: Lt, h: Row, t: seq<Row>)
    requires Sorted(lt, t) && forall x :: x in t ==> lt(h, x)
    ensures Sorted(lt, [h] + t)
  {
  }

  ghost predicate NoTies(lt: Lt, rows: seq<Row>) {
    forall i, j :: 0 <= i < j < |rows| ==> !SameKey(lt, rows[i], rows[j])
  }

  lemma {:induction false} StableSortSorts(lt: Lt, rows: seq<Row>)
    requires StrictWeak(lt) && NoTies(lt, rows)
    ensures Sorted(lt, StableSort(lt, rows)) && SameMembers(StableSort(lt, rows), rows)
  {
    if rows != [] {
      var n := |rows| - 1;
      var (front, r) := (rows[..n], rows[n]);
      StableSortSorts(lt, front);
      hide StableSort;
      PlacedSorted(lt, StableSort(lt, front), r);
      forall x ensures x in StableSort(lt, rows) <==> x in rows {
        PlacedMembers(lt, StableSort(lt, front), r, x);
        SortStep(lt, rows);
        assert rows == front + [r];
      }
      SortStep(lt, rows);
    }
  }

  lemma SortStep(lt: Lt, rows: seq<Row>)
    requires rows != []
    ensures StableSort(lt, rows) == Placed(lt, StableSort(lt, rows[..|rows| - 1]), rows[|rows| - 1])
  {
  }

  /** The primary's rows have no ties in an order that includes the primary key. */
  lemma PrimaryNoTies(sort: Sort, pk: seq<ColId>, p: seq<Row>)
    requires IncludesPk(sort, pk) && Sorted(SortLt(PrimarySort(pk)), p)
    ensures NoTies(SortLt(sort), p)
  {
    forall i, j | 0 <= i < j < |p| ensures !SameKey(SortLt(sort), p[i], p[j]) {
      assert SortLt(PrimarySort(pk))(p[i], p[j]);
      if SameKey(SortLt(sort), p[i], p[j]) { Finer(sort, pk, p[i], p[j]); }
    }
  }

  // ---- seeking by constraint ----

  /** `constraint_matches`: null matches nothing. */
  predicate Matches(r: Row, c: Constraint) {
    forall i :: 0 <= i < |c| ==> ValuesEqual(Col(r, c[i].0), c[i].1)
  }

  /** The value a constraint asks of a column: its first entry. */
  function Wanted(c: Constraint, col: ColId): Option<Value> {
    if c == [] then None else if c[0].0 == col then Some(c[0].1) else Wanted(c[1..], col)
  }

  function StartCell(c: Constraint, e: (ColId, bool), reverse: bool): CU.Bound {
    match Wanted(c, e.0)
    case Some(v) => CU.Val(v)
    case None => if reverse == e.1 then CU.Max else CU.Min
  }

  /** `build_scan_start` */
  function ScanStart(c: Constraint, sort: Sort, reverse: bool): CU.RowBound {
    if sort == [] then [] else [(sort[0].0, StartCell(c, sort[0], reverse))] + ScanStart(c, sort[1..], reverse)
  }

  /** `row_bound_of` */
  function RowBoundOf(row: Row, sort: Sort): CU.RowBound {
    if sort == [] then [] else [(sort[0].0, CU.Val(Col(row, sort[0].0)))] + RowBoundOf(row, sort[1..])
  }

  /** The index columns of a fetch: the constraint's, then the connection's order unless a
      one-column primary key is fully constrained. */
  function IndexSort(pk: seq<ColId>, c: Option<Constraint>, sort: Sort): Sort {
    match c
    case None => sort
    case Some(k) => Columns(k) + if |pk| > 1 || !MatchesPk(k, pk) then sort else []
  }

  function Columns(c: Constraint): Sort {
    if c == [] then [] else [(c[0].0, true)] + Columns(c[1..])
  }

  /** `constraint_matches_primary_key` */
  predicate MatchesPk(c: Constraint, pk: seq<ColId>) {
    |c| == |pk| && forall p :: p in pk ==> exists e :: e in c && e.0 == p
  }

  /** The index of a constrained fetch: the constrained columns ascending, then the requested sort,
      which is dropped when the constraint is on a one-column primary key. */
  lemma IndexSortIs(pk: seq<ColId>, c: Constraint, sort: Sort)
    requires pk != []
    ensures IndexSort(pk, Some(c), sort) == Columns(c) + if |c| == 1 && pk == [c[0].0] then [] else sort
  {
    if |pk| == 1 && |c| == 1 {
      assert pk[0] in pk && c[0] in c;
      assert forall e :: e in c ==> e == c[0];
    }
  }

  lemma {:induction false} ColumnsAre(c: Constraint)
    ensures |Columns(c)| == |c|
    ensures forall i :: 0 <= i < |c| ==> Columns(c)[i] == (c[i].0, true)
  {
    if c != [] { ColumnsAre(c[1..]); }
  }

  lemma {:induction false} WantedIn(c: Constraint, i: nat)
    requires i < |c|
    ensures Wanted(c, c[i].0).Some?
  {
    if c[0].0 != c[i].0 { WantedIn(c[1..], i - 1); }
  }

  /** A matching row carries the wanted value of every constrained column. */
  lemma {:induction false} MatchedValue(r: Row, c: Constraint, col: ColId)
    requires Matches(r, c) && Wanted(c, col).Some?
    ensures Col(r, col) == Wanted(c, col).value
  {
    if c[0].0 == col {
      ValueLaws(Col(r, col), c[0].1);
    } else {
      assert forall i :: 0 <= i < |c[1..]| ==> c[1..][i] == c[i + 1];
      MatchedValue(r, c[1..], col);
    }
  }

  lemma {:induction false} BoundAtWanted(c: Constraint, sort: Sort, reverse: bool, i: nat)
    requires i < |sort| && Wanted(c, sort[i].0).Some?
    ensures CU.BoundAt(ScanStart(c, sort, reverse), sort[i].0) == CU.Val(Wanted(c, sort[i].0).value)
  {
    if sort[0].0 != sort[i].0 { BoundAtWanted(c, sort[1..], reverse, i - 1); }
  }

  lemma {:induction false} BoundAtFree(c: Constraint, sort: Sort, reverse: bool, i: nat)
    requires i < |sort| && Wanted(c, sort[i].0).None?
    requires forall j :: 0 <= j < i ==> sort[j].0 != sort[i].0
    ensures CU.BoundAt(ScanStart(c, sort, reverse), sort[i].0) == if reverse == sort[i].1 then CU.Max else CU.Min
  {
    if i > 0 {
      assert forall j :: 0 <= j < i - 1 ==> sort[1..][j] == sort[j + 1];
      BoundAtFree(c, sort[1..], reverse, i - 1);
    }
  }

  /** The seek starts at or before every matching row, in the direction of travel. */
  lemma {:induction false} StartReaches(c: Constraint, sort: Sort, reverse: bool, r: Row, i: nat)
    requires Matches(r, c) && i <= |sort|
    requires forall j :: 0 <= j < i ==> Wanted(c, sort[j].0).Some?
    ensures var o := CU.CompareBound(sort[i..], ScanStart(c, sort, reverse), r);
      if reverse then !o.Less? else !o.Greater?
    decreases |sort| - i
  {
    if i < |sort| {
      assert sort[i..][0] == sort[i] && sort[i..][1..] == sort[i + 1..];
      match Wanted(c, sort[i].0) {
        case Some(v) =>
          BoundAtWanted(c, sort, reverse, i);
          MatchedValue(r, c, sort[i].0);
          ValueLaws(v, v);
          StartReaches(c, sort, reverse, r, i + 1);
        case None =>
          BoundAtFree(c, sort, reverse, i);
      }
    }
  }

  /** Between the scan start and a matching row, every row agrees on the constrained columns. */
  lemma {:induction false} SqueezedAt(c: Constraint, sort: Sort, reverse: bool, a: Row, b: Row, i: nat)
    requires |c| <= |sort| && sort[..|c|] == Columns(c) && Matches(b, c) && i <= |c|
    requires var o := CU.CompareBound(sort[i..], ScanStart(c, sort, reverse), a);
      if reverse then !o.Less? else !o.Greater?
    requires if reverse then CompareRows(sort[i..], b, a).Less? else CompareRows(sort[i..], a, b).Less?
    ensures forall j :: i <= j < |c| ==> Col(a, c[j].0) == Col(b, c[j].0)
    decreases |c| - i
  {
    if i < |c| {
      ColumnsAre(c);
      assert sort[..|c|][i] == sort[i];
      var col := c[i].0;
      assert sort[i] == (col, true);
      assert sort[i..][0] == sort[i] && sort[i..][1..] == sort[i + 1..];
      WantedIn(c, i);
      BoundAtWanted(c, sort, reverse, i);
      MatchedValue(b, c, col);
      ValueLaws(Col(a, col), Col(b, col));
      ValueLaws(Col(b, col), Col(a, col));
      SqueezedAt(c, sort, reverse, a, b, i + 1);
    }
  }

  /** Rows that agree on the constrained columns match together. */
  lemma MatchTogether(c: Constraint, a: Row, b: Row)
    requires Matches(b, c) && forall j :: 0 <= j < |c| ==> Col(a, c[j].0) == Col(b, c[j].0)
    ensures Matches(a, c)
  {
  }

  // ---- the row chain of a fetch ----

  function Travel(sort: Sort, reverse: bool): Lt {
    if reverse then (a: Row, b: Row) => SortLt(sort)(b, a) else SortLt(sort)
  }

  lemma TravelIs(sort: Sort, reverse: bool, a: Row, b: Row)
    ensures Travel(sort, reverse)(a, b) <==>
      (if reverse then CompareRows(sort, b, a) else CompareRows(sort, a, b)).Less?
  {
    assert SortLt(sort)(b, a) <==> CompareRows(sort, b, a).Less?;
  }

  /** Has the scan reached its start row, in the connection's order and direction? */
  predicate Reached(sort: Sort, req: Request, r: Row) {
    match req.start
    case None => true
    case Some(s) =>
      var c := CompareRows(sort, r, s.row);
      var d := if req.reverse then Reverse(c) else c;
      if s.after then d.Greater? else !d.Less?
  }

  function ReachedP(sort: Sort, req: Request): Row -> bool {
    (r: Row) => Reached(sort, req, r)
  }

  function MatchesP(c: Constraint): Row -> bool {
    (r: Row) => Matches(r, c)
  }

  /** `generate_with_start`: drop rows until one qualifies, then pass everything. */
  function SkipUntil(q: Row -> bool, s: seq<Row>): seq<Row> {
    if s == [] || q(s[0]) then s else SkipUntil(q, s[1..])
  }

  /** `generate_with_constraint`: stop at the first row that fails. */
  function TakeWhile(p: Row -> bool, s: seq<Row>): seq<Row> {
    if s == [] || !p(s[0]) then [] else [s[0]] + TakeWhile(p, s[1..])
  }

  function Both(p: Row -> bool, q: Row -> bool): Row -> bool {
    (r: Row) => p(r) && q(r)
  }

  /** Once a row fails `p`, all later ones do; among rows passing `p`, `q` never stops holding. */
  ghost predicate Chained(p: Row -> bool, q: Row -> bool, s: seq<Row>) {
    forall i, j :: 0 <= i < j < |s| ==> (p(s[j]) ==> p(s[i]) && (q(s[i]) ==> q(s[j])))
  }

  lemma ChainedTail(p: Row -> bool, q: Row -> bool, s: seq<Row>)
    requires Chained(p, q, s) && s != []
    ensures Chained(p, q, s[1..])
    ensures forall j :: 0 <= j < |s[1..]| ==> (p(s[1..][j]) ==> p(s[0]) && (q(s[0]) ==> q(s[1..][j])))
  {
  }

  /** Breaking at the first mismatch loses nothing. */
  lemma {:induction false} TakeIsFilter(p: Row -> bool, q: Row -> bool, s: seq<Row>)
    requires Chained(p, q, s) && (s != [] && p(s[0]) ==> q(s[0]))
    ensures TakeWhile(p, s) == CU.Filter(Both(p, q), s)
  {
    if s != [] {
      ChainedTail(p, q, s);
      if p(s[0]) { TakeIsFilter(p, q, s[1..]); } else { CU.FilterNone(Both(p, q), s); }
    }
  }

  lemma {:induction false} GateIsFilter(p: Row -> bool, q: Row -> bool, s: seq<Row>)
    requires Chained(p, q, s)
    ensures TakeWhile(p, SkipUntil(q, s)) == CU.Filter(Both(p, q), s)
  {
    if s != [] {
      ChainedTail(p, q, s);
      if q(s[0]) { TakeIsFilter(p, q, s); } else { GateIsFilter(p, q, s[1..]); }
    }
  }

  lemma {:induction false} FilterMembers(p: Row -> bool, s: seq<Row>, r: Row)
    ensures r in CU.Filter(p, s) <==> r in s && p(r)
  {
    if s != [] { FilterMembers(p, s[1..], r); }
  }

  /** A filtered list is sorted by an order that relates the rows it keeps. */
  lemma {:induction false} FilterSorted(lt: Lt, p: Row -> bool, s: seq<Row>)
    requires forall i, j :: 0 <= i < j < |s| && p(s[i]) && p(s[j]) ==> lt(s[i], s[j])
    ensures Sorted(lt, CU.Filter(p, s))
  {
    if s != [] {
      var t := CU.Filter(p, s[1..]);
      assert forall i :: 0 <= i < |s[1..]| ==> s[1..][i] == s[i + 1];
      FilterSorted(lt, p, s[1..]);
      if p(s[0]) {
        forall x | x in t ensures lt(s[0], x) { FilterMembers(p, s[1..], x); }
        Fronted(lt, s[0], t);
      }
    }
  }

  lemma {:induction false} ReversedMembers(s: seq<Row>, r: Row)
    ensures r in Reversed(s) <==> r in s
  {
    if s != [] { ReversedMembers(s[..|s| - 1], r); assert s == s[..|s| - 1] + [BT.Last(s)]; }
  }

  lemma {:induction false} ReversedSorted(sort: Sort, s: seq<Row>)
    requires Sorted(SortLt(sort), s)
    ensures Sorted(Travel(sort, true), Reversed(s))
  {
    if s != [] {
      var (f, x) := (s[..|s| - 1], BT.Last(s));
      ReversedSorted(sort, f);
      forall y | y in Reversed(f) ensures Travel(sort, true)(x, y) { ReversedMembers(f, y); }
      Fronted(Travel(sort, true), x, Reversed(f));
    }
  }

  // ---- what the seek delivers ----

  function SeekBound(c: Option<Constraint>, idx: Sort, req: Request): Option<CU.RowBound> {
    match c
    case Some(k) => Some(ScanStart(k, idx, req.reverse))
    case None => match req.start case None => None case Some(s) => Some(RowBoundOf(s.row, idx))
  }

  /** Rows on the travelled side of the bound. */
  predicate Within(idx: Sort, bound: Option<CU.RowBound>, reverse: bool, r: Row) {
    match bound
    case None => true
    case Some(b) => var o := CU.CompareBound(idx, b, r); if reverse then !o.Less? else !o.Greater?
  }

  ghost function Stream(idx: Sort, rows: seq<Row>, bound: Option<CU.RowBound>, reverse: bool): seq<Row> {
    match bound
    case None => if reverse then Reversed(rows) else rows
    case Some(b) =>
      if reverse then Reversed(CU.Filter(CU.UnderP(CU.BoundCut(idx, b), true), rows))
      else CU.Filter(CU.AboveP(CU.BoundCut(idx, b), true), rows)
  }

  lemma {:induction false} StreamIs(idx: Sort, rows: seq<Row>, bound: Option<CU.RowBound>, reverse: bool)
    requires Sorted(SortLt(idx), rows)
    ensures Sorted(Travel(idx, reverse), Stream(idx, rows, bound, reverse))
    ensures forall r :: r in Stream(idx, rows, bound, reverse) <==> r in rows && Within(idx, bound, reverse, r)
  {
    hide CU.Filter;
    hide Reversed;
    hide SortLt;
    var kept := match bound
      case None => rows
      case Some(b) =>
        CU.Filter(if reverse then CU.UnderP(CU.BoundCut(idx, b), true) else CU.AboveP(CU.BoundCut(idx, b), true), rows);
    if bound.Some? {
      var p := if reverse then CU.UnderP(CU.BoundCut(idx, bound.value), true)
        else CU.AboveP(CU.BoundCut(idx, bound.value), true);
      FilterSorted(SortLt(idx), p, rows);
      forall r ensures r in kept <==> r in rows && Within(idx, bound, reverse, r) { FilterMembers(p, rows, r); }
    }
    ReversedSorted(idx, kept);
    forall r ensures r in Reversed(kept) <==> r in kept { ReversedMembers(kept, r); }
  }

  /** `row_bound_of` compares like the row itself. */
  lemma {:induction false} RowBoundCompares(row: Row, idx: Sort, r: Row, i: nat)
    requires i <= |idx|
    ensures CU.CompareBound(idx[i..], RowBoundOf(row, idx), r) == CompareRows(idx[i..], row, r)
    decreases |idx| - i
  {
    if i < |idx| {
      assert idx[i..][0] == idx[i] && idx[i..][1..] == idx[i + 1..];
      RowBoundAt(row, idx, i);
      RowBoundCompares(row, idx, r, i + 1);
    }
  }

  lemma {:induction false} RowBoundAt(row: Row, idx: Sort, i: nat)
    requires i < |idx|
    ensures CU.BoundAt(RowBoundOf(row, idx), idx[i].0) == CU.Val(Col(row, idx[i].0))
  {
    if idx[0].0 != idx[i].0 { RowBoundAt(row, idx[1..], i - 1); }
  }

  /** Every row the fetch owes its caller lies within the seek. */
  lemma {:induction false} SeekCovers(pk: seq<ColId>, sort: Sort, req: Request, r: Row)
    requires req.constraint.Some? ==> Matches(r, req.constraint.value)
    requires Reached(sort, req, r)
    ensures var idx := IndexSort(pk, req.constraint, sort);
      Within(idx, SeekBound(req.constraint, idx, req), req.reverse, r)
  {
    var idx := IndexSort(pk, req.constraint, sort);
    assert idx[0..] == idx;
    match req.constraint {
      case Some(c) => StartReaches(c, idx, req.reverse, r, 0);
      case None =>
        if req.start.Some? {
          RowBoundCompares(req.start.value.row, idx, r, 0);
          RowLaws(sort, r, req.start.value.row);
        }
    }
  }

  /** A row met before a matching row matches. */
  lemma {:induction false} MatchesFirst(pk: seq<ColId>, sort: Sort, req: Request, a: Row, b: Row)
    requires req.constraint.Some? && Matches(b, req.constraint.value)
    requires var idx := IndexSort(pk, req.constraint, sort);
      Travel(idx, req.reverse)(a, b) && Within(idx, SeekBound(req.constraint, idx, req), req.reverse, a)
    ensures Matches(a, req.constraint.value)
  {
    var (c, idx) := (req.constraint.value, IndexSort(pk, req.constraint, sort));
    ColumnsAre(c);
    assert idx[0..] == idx && idx[..|c|] == Columns(c);
    TravelIs(idx, req.reverse, a, b);
    SqueezedAt(c, idx, req.reverse, a, b, 0);
    MatchTogether(c, a, b);
  }

  /** Two matching rows meet in the connection's order. */
  lemma {:induction false} MatchedOrder(pk: seq<ColId>, sort: Sort, req: Request, a: Row, b: Row)
    requires req.constraint.Some? ==> Matches(a, req.constraint.value) && Matches(b, req.constraint.value)
    requires Travel(IndexSort(pk, req.constraint, sort), req.reverse)(a, b)
    ensures Travel(sort, req.reverse)(a, b)
  {
    if req.constraint.Some? {
      var (c, idx) := (req.constraint.value, IndexSort(pk, req.constraint, sort));
      ColumnsAre(c);
      forall i | 0 <= i < |c| ensures Col(a, c[i].0) == Col(b, c[i].0) {
        ValueLaws(Col(a, c[i].0), c[i].1);
        ValueLaws(Col(b, c[i].0), c[i].1);
      }
      var rest := if |pk| > 1 || !MatchesPk(c, pk) then sort else [];
      SkipEqual(Columns(c), rest, a, b);
      SkipEqual(Columns(c), rest, b, a);
      TravelIs(idx, req.reverse, a, b);
      TravelIs(sort, req.reverse, a, b);
    }
  }

  /** Leading columns on which two rows agree do not affect their comparison. */
  lemma {:induction false} SkipEqual(front: Sort, rest: Sort, a: Row, b: Row)
    requires forall i :: 0 <= i < |front| ==> Col(a, front[i].0) == Col(b, front[i].0)
    ensures CompareRows(front + rest, a, b) == CompareRows(rest, a, b)
  {
    if front == [] {
      assert front + rest == rest;
    } else {
      assert (front + rest)[0] == front[0] && (front + rest)[1..] == front[1..] + rest;
      ValueLaws(Col(a, front[0].0), Col(b, front[0].0));
      assert forall i :: 0 <= i < |front[1..]| ==> front[1..][i] == front[i + 1];
      SkipEqual(front[1..], rest, a, b);
    }
  }

  /** Having reached the start is kept in the direction of travel. */
  lemma ReachedOnward(sort: Sort, req: Request, a: Row, b: Row)
    requires Reached(sort, req, a) && Travel(sort, req.reverse)(a, b)
    ensures Reached(sort, req, b)
  {
    if req.start.Some? {
      var s := req.start.value.row;
      RowLaws(sort, a, s);
      RowLaws(sort, b, s);
      RowLaws(sort, a, b);
      TravelIs(sort, req.reverse, a, b);
      if req.reverse { RowTransitive(sort, b, a, s); } else { RowTransitive(sort, s, a, b); }
    }
  }

  // ---- the source itself ----

  /** The existence check of a push: by primary key only. */
  predicate Checked(lt: Lt, s: seq<Row>, c: SourceChange) {
    match c
    case Add(r) => !Hit(lt, s, r)
    case Remove(r) => Hit(lt, s, r)
    case Edit(old_, _) => Hit(lt, s, old_)
  }

  lemma LegalIsChecked(lt: Lt, s: seq<Row>, c: SourceChange)
    requires StrictWeak(lt) && Sorted(lt, s) && Legal(lt, s, c)
    ensures Checked(lt, s, c)
  {
    hide Hit;
    match c {
      case Add(_) =>
      case Remove(r) => Laws(lt, r, r, r); HitIffPresent(lt, s, r);
      case Edit(r, _) => Laws(lt, r, r, r); HitIffPresent(lt, s, r);
    }
  }

  /** The check looks at the primary key only: it lets through the removal of a row whose other
      cells differ from the stored ones, and that removal misses a secondary index.  `AgreeIff`
      says exactly which changes do this. */
  lemma CheckedIsNotLegal()
    ensures var (p, s, stored, stale) := ([(0, true)], [(1, true), (0, true)], [Int(1), Int(5)], [Int(1), Int(9)]);
      && Checked(SortLt(p), [stored], Remove(stale)) && !Legal(SortLt(p), [stored], Remove(stale))
      && Applied(SortLt(p), [stored], Remove(stale)) == [] && Applied(SortLt(s), [stored], Remove(stale)) == [stored]
  {
    var (p, s, stored, stale) := ([(0, true)], [(1, true), (0, true)], [Int(1), Int(5)], [Int(1), Int(9)]);
    assert p[1..] == [] && s[1..] == p;
    assert CompareRows(p, stored, stale).Equal? && CompareRows(p, stale, stored).Equal?;
    assert CompareRows(s, stored, stale).Less? && CompareRows(s, stale, stored).Greater?;
    assert LowerBound(SortLt(p), [stored], stale) == 0;
    assert [stored][1..] == [];
    assert LowerBound(SortLt(s), [stored], stale) == 1;
  }

  /** A legal edit may be delivered as a removal followed by an addition. */
  lemma {:induction false} LegalSplit(lt: Lt, s: seq<Row>, old_: Row, r: Row)
    requires StrictWeak(lt) && Sorted(lt, s) && Legal(lt, s, Edit(old_, r))
    ensures Legal(lt, s, Remove(old_)) && Legal(lt, Applied(lt, s, Remove(old_)), Add(r))
    ensures Applied(lt, Applied(lt, s, Remove(old_)), Add(r)) == Applied(lt, s, Edit(old_, r))
  {
    hide Order.Remove;
    hide Insert;
    RemoveActsAsErasure(lt, s, old_, r);
    hide Hit;
    if !SameKey(lt, old_, r) {
      assert Lookup(lt, Order.Remove(lt, s, old_), r) == Lookup(lt, s, r);
    }
  }

  /** Every index after one change. */
  ghost predicate Written(ix: Indexes, c: SourceChange, ix': Indexes) {
    && ix'.Keys == ix.Keys
    && forall s :: s in ix ==> BT.Contents(ix'[s]) == Applied(SortLt(s), BT.Contents(ix[s]), c)
  }

  lemma {:induction false} WrittenIndex(s: Sort, t: BT.Tree, c: SourceChange)
    requires BT.Ok(SortLt(s), t)
    ensures StrictWeak(SortLt(s))
    ensures BT.Ok(SortLt(s), WriteTree(SortLt(s), t, c))
    ensures BT.Contents(WriteTree(SortLt(s), t, c)) == Applied(SortLt(s), BT.Contents(t), c)
  {
    hide *;
    SortIsStrictWeak(s);
    WriteTreeCorrect(SortLt(s), t, c);
  }

  /** Does a push go through?  Strict mode checks the change, or both halves of a split edit. */
  predicate Admitted(lt: Lt, s: seq<Row>, splitKeys: seq<ColId>, strict: bool, c: SourceChange) {
    strict ==>
      && Checked(lt, s, c)
      && (ShouldSplit(splitKeys, c) ==> Checked(lt, Applied(lt, s, Remove(c.old_)), Add(c.row)))
  }

  lemma AdmittedIs(lt: Lt, s: seq<Row>, splitKeys: seq<ColId>, strict: bool, c: SourceChange)
    ensures Admitted(lt, s, splitKeys, strict, c) <==>
      !strict
      || (Checked(lt, s, c)
          && (ShouldSplit(splitKeys, c) ==> Checked(lt, Applied(lt, s, Remove(c.old_)), Add(c.row))))
    ensures c.Edit? && Legal(lt, Applied(lt, s, Remove(c.old_)), Add(c.row)) ==>
      Checked(lt, Applied(lt, s, Remove(c.old_)), Add(c.row))
  {
  }

  /** Applying an edit is applying its two halves. */
  lemma EditIsBoth(lt: Lt, s: seq<Row>, old_: Row, r: Row)
    ensures Applied(lt, Applied(lt, s, Remove(old_)), Add(r)) == Applied(lt, s, Edit(old_, r))
  {
  }

  lemma WrittenTwice(ix: Indexes, old_: Row, r: Row, mid: Indexes, ix': Indexes)
    requires Written(ix, Remove(old_), mid) && Written(mid, Add(r), ix')
    ensures Written(ix, Edit(old_, r), ix')
  {
  }

  /** `should_split_edit` */
  predicate ShouldSplit(keys: seq<ColId>, c: SourceChange) {
    c.Edit? && exists k :: k in keys && !ValuesEqual(Col(c.row, k), Col(c.old_, k))
  }

  /** An edit is split exactly when a split key's cell changes or is null. */
  lemma SplitIff(keys: seq<ColId>, c: SourceChange)
    ensures ShouldSplit(keys, c) <==>
      c.Edit? && exists k :: k in keys && !(Col(c.row, k) == Col(c.old_, k) && Col(c.row, k) !in {Null, Absent})
  {
    if c.Edit? {
      forall k ensures ValuesEqual(Col(c.row, k), Col(c.old_, k)) <==>
        Col(c.row, k) == Col(c.old_, k) && !Col(c.row, k).Null? && !Col(c.row, k).Absent?
      {
        EqualitiesAre(Col(c.row, k), Col(c.old_, k));
      }
    }
  }

  /** The rows after a push: the change applied if it is admitted, its removal half alone if a split
      edit is refused at its addition, unchanged otherwise. */
  function Pushed(lt: Lt, s: seq<Row>, splitKeys: seq<ColId>, strict: bool, c: SourceChange): seq<Row> {
    if Admitted(lt, s, splitKeys, strict, c) then Applied(lt, s, c)
    else if c.Edit? && Checked(lt, s, c) then Applied(lt, s, Remove(c.old_))
    else s
  }

  lemma PushedIs(lt: Lt, s: seq<Row>, splitKeys: seq<ColId>, strict: bool, c: SourceChange)
    ensures Pushed(lt, s, splitKeys, strict, c) ==
      if Admitted(lt, s, splitKeys, strict, c) then Applied(lt, s, c)
      else if c.Edit? && Checked(lt, s, c) then Applied(lt, s, Remove(c.old_))
      else s
  {
  }

  class Source {
    var indexes: Indexes
    var splitKeys: seq<ColId>
    const pk: seq<ColId>

    /** `try_new`: the caller promises unique primary keys. */
    constructor (pk: seq<ColId>, initial: seq<Row>)
      requires NoTies(SortLt(PrimarySort(pk)), initial)
      ensures this.pk == pk && Trees(pk, indexes) && Agree(pk, indexes)
      ensures SameMembers(Primary(pk, indexes), initial)
      ensures indexes.Keys == {PrimarySort(pk)} && splitKeys == []
    {
      var sort := PrimarySort(pk);
      SortIsStrictWeak(sort);
      StableSortSorts(SortLt(sort), initial);
      PrimaryColumns(pk);
      PrimaryCovers(pk);
      var t := BT.FromSorted(StableSort(SortLt(sort), initial));
      this.pk, indexes, splitKeys := pk, map[sort := t], [];
    }

    /** `exists` */
    method Exists(r: Row) returns (b: bool)
      requires Trees(pk, indexes)
      ensures b == Hit(SortLt(PrimarySort(pk)), Primary(pk, indexes), r)
    {
      hide *;
      TreesAt(pk, indexes, PrimarySort(pk));
      var t := indexes[PrimarySort(pk)];
      SortIsStrictWeak(PrimarySort(pk));
      RootOf(SortLt(PrimarySort(pk)), t);
      BT.FindCorrect(SortLt(PrimarySort(pk)), t.root, r, BT.Height(t.root));
      LookupHits(SortLt(PrimarySort(pk)), BT.Flat(t.root), r);
      PrimaryIs(pk, indexes);
      b := BT.Find(SortLt(PrimarySort(pk)), t.root, r, BT.Height(t.root)).Some?;
    }

    /** `write_change`: one loop over the indexes. */
    method WriteChange(c: SourceChange)
      requires Trees(pk, indexes)
      modifies `indexes
      ensures Trees(pk, indexes) && Written(old(indexes), c, indexes)
      ensures Primary(pk, indexes) == Applied(SortLt(PrimarySort(pk)), old(Primary(pk, indexes)), c)
      ensures old(Agree(pk, indexes)) ==> (Agree(pk, indexes) <==> old(Ties(pk, indexes, c)))
    {
      hide *;
      ghost var before := indexes;
      var todo := indexes.Keys;
      while todo != {}
        invariant todo <= before.Keys == indexes.Keys
        invariant forall s :: s in todo ==> indexes[s] == before[s]
        invariant forall s :: s in before && s !in todo ==> IndexWritten(s, before[s], c, indexes[s])
        decreases |todo|
      {
        var s :| s in todo;
        TreesAt(pk, before, s);
        WrittenIndex(s, indexes[s], c);
        IndexWrittenIs(s, before[s], c, WriteTree(SortLt(s), indexes[s], c));
        indexes := indexes[s := WriteTree(SortLt(s), indexes[s], c)];
        todo := todo - {s};
      }
      AllWritten(pk, before, c, indexes);
    }

    /** One checked push: reject, or write every index. */
    method PushAndWrite(c: SourceChange, strict: bool) returns (ok: bool)
      requires Trees(pk, indexes)
      modifies `indexes
      ensures Trees(pk, indexes)
      ensures ok <==> (strict ==> Checked(SortLt(PrimarySort(pk)), old(Primary(pk, indexes)), c))
      ensures if ok then Written(old(indexes), c, indexes) else indexes == old(indexes)
      ensures ok ==> Primary(pk, indexes) == Applied(SortLt(PrimarySort(pk)), old(Primary(pk, indexes)), c)
      ensures Legal(SortLt(PrimarySort(pk)), old(Primary(pk, indexes)), c) ==> ok
      ensures ok && old(Agree(pk, indexes)) ==> (Agree(pk, indexes) <==> old(Ties(pk, indexes, c)))
    {
      hide *;
      PrimarySorted(pk, indexes);
      var present := Exists(if c.Edit? then c.old_ else c.row);
      CheckedIs(SortLt(PrimarySort(pk)), Primary(pk, indexes), c);
      if Legal(SortLt(PrimarySort(pk)), Primary(pk, indexes), c) {
        LegalIsChecked(SortLt(PrimarySort(pk)), Primary(pk, indexes), c);
      }
      ok := !strict || (if c.Add? then !present else present);
      if ok { WriteChange(c); }
    }

    /** `try_push`: an edit that changes a split key goes out as a removal and an addition.  An
        admitted change is written to every index all the same, and indexes that agreed still do
        exactly when the change ties; a legal change is admitted and ties.  An edit refused at
        its second half leaves its first half written. */
    method TryPush(c: SourceChange, strict: bool) returns (ok: bool)
      requires Trees(pk, indexes)
      modifies `indexes
      ensures Trees(pk, indexes)
      ensures ok <==> Admitted(SortLt(PrimarySort(pk)), old(Primary(pk, indexes)), splitKeys, strict, c)
      ensures ok ==> Written(old(indexes), c, indexes)
      ensures ok ==> Primary(pk, indexes) == Applied(SortLt(PrimarySort(pk)), old(Primary(pk, indexes)), c)
      ensures ok && old(Agree(pk, indexes)) ==> (Agree(pk, indexes) <==> old(Ties(pk, indexes, c)))
      ensures !ok && !Checked(SortLt(PrimarySort(pk)), old(Primary(pk, indexes)), c) ==> indexes == old(indexes)
      ensures !ok && Checked(SortLt(PrimarySort(pk)), old(Primary(pk, indexes)), c) ==>
        c.Edit? && Written(old(indexes), Remove(c.old_), indexes)
      ensures Legal(SortLt(PrimarySort(pk)), old(Primary(pk, indexes)), c) ==> ok && old(Ties(pk, indexes, c))
      ensures Primary(pk, indexes)
        == Pushed(SortLt(PrimarySort(pk)), old(Primary(pk, indexes)), splitKeys, strict, c)
    {
      hide *;
      PrimarySorted(pk, indexes);
      ghost var before := indexes;
      ghost var (p, lt) := (Primary(pk, indexes), SortLt(PrimarySort(pk)));
      if Legal(lt, p, c) {
        LegalTies(pk, indexes, c);
        LegalIsChecked(lt, p, c);
        if c.Edit? { LegalSplit(lt, p, c.old_, c.row); }
      }
      AdmittedIs(lt, p, splitKeys, strict, c);
      PushedIs(lt, p, splitKeys, strict, c);
      if ShouldSplit(splitKeys, c) {
        SplitIs(splitKeys, c);
        CheckedIs(lt, p, c);
        CheckedIs(lt, p, Remove(c.old_));
        EditIsBoth(lt, p, c.old_, c.row);
        ok := PushAndWrite(Remove(c.old_), strict);
        ghost var middle := indexes;
        if ok {
          ok := PushAndWrite(Add(c.row), strict);
          if ok {
            WrittenTwice(before, c.old_, c.row, middle, indexes);
            if Agree(pk, before) { AgreeIff(pk, before, c, indexes); }
          }
        }
      } else {
        ok := PushAndWrite(c, strict);
      }
    }

    /** `ensure_index`: read the primary in order, sort, bulk-load. */
    method EnsureIndex(sort: Sort)
      requires Trees(pk, indexes) && Agree(pk, indexes) && IncludesPk(sort, pk)
      modifies `indexes
      ensures Trees(pk, indexes) && Agree(pk, indexes) && indexes.Keys == old(indexes.Keys) + {sort}
      ensures forall s :: s in old(indexes) ==> indexes[s] == old(indexes[s])
    {
      hide *;
      if sort in indexes { return; }
      PrimarySorted(pk, indexes);
      TreesAt(pk, indexes, PrimarySort(pk));
      var rows := CU.ForwardScan(PrimarySort(pk), indexes[PrimarySort(pk)], None, true);
      PrimaryIs(pk, indexes);
      PrimaryNoTies(sort, pk, rows);
      SortIsStrictWeak(sort);
      StableSortSorts(SortLt(sort), rows);
      var data := BT.FromSorted(StableSort(SortLt(sort), rows));
      Extended(pk, indexes, sort, data);
      indexes := indexes[sort := data];
    }

    /** `fetch`, with no change in flight: whatever index is chosen and wherever the seek
        lands, the result is the rows that satisfy the constraint, the start bound and the
        filter, in the connection's order and direction. */
    method Fetch(sort: Sort, filter: Row -> bool, req: Request) returns (out: seq<Row>)
      requires Trees(pk, indexes) && Agree(pk, indexes) && IncludesPk(sort, pk)
      modifies `indexes
      ensures Trees(pk, indexes) && Agree(pk, indexes)
      ensures forall s :: s in old(indexes) ==> s in indexes && indexes[s] == old(indexes[s])
      ensures indexes.Keys == old(indexes.Keys) + {IndexSort(pk, req.constraint, sort)}
      ensures Primary(pk, indexes) == old(Primary(pk, indexes))
      ensures InDirection(sort, req.reverse, out)
      ensures forall r :: r in out <==>
        && r in Primary(pk, indexes) && filter(r)
        && (req.constraint.Some? ==> Meets(req.constraint.value, r))
        && (req.start.Some? ==> Past(sort, req.reverse, req.start.value, r))
      ensures req.start.Some? && req.start.value.after ==>
        forall r :: r in out ==> !SameSortKey(sort, r, req.start.value.row)
      ensures out == FullScan(sort, filter, req, Primary(pk, indexes))
    {
      hide *;
      TreesAt(pk, indexes, PrimarySort(pk));
      PrimaryIs(pk, indexes);
      var idx := IndexSort(pk, req.constraint, sort);
      IndexIncludesPk(pk, req.constraint, sort);
      EnsureIndex(idx);
      TreesAt(pk, indexes, idx);
      var bound := SeekBound(req.constraint, idx, req);
      var stream := [];
      if req.reverse {
        stream := CU.ReverseScan(idx, indexes[idx], bound, true);
      } else {
        stream := CU.ForwardScan(idx, indexes[idx], bound, true);
      }
      ghost var rows := BT.Contents(indexes[idx]);
      StreamReads(idx, rows, bound, req.reverse, stream);
      AgreeAt(pk, indexes, idx);
      RootOf(SortLt(idx), indexes[idx]);
      var started := if req.start.None? then stream else SkipUntil(ReachedP(sort, req), stream);
      var matched := if req.constraint.None? then started else TakeWhile(MatchesP(req.constraint.value), started);
      out := CU.Filter(filter, matched);
      ChainDelivers(pk, sort, filter, req, rows, stream);
      PrimarySorted(pk, indexes);
      PrimaryIs(pk, indexes);
      PrimaryNoTies(sort, pk, Primary(pk, indexes));
      FullScanIs(sort, filter, req, Primary(pk, indexes), out);
      DirectionIs(sort, req.reverse, out);
      forall r ensures Wants(sort, filter, req, r) <==>
        && filter(r) && (req.constraint.Some? ==> Meets(req.constraint.value, r))
        && (req.start.Some? ==> Past(sort, req.reverse, req.start.value, r))
      {
        WantedIs(sort, filter, req, r);
      }
      if req.start.Some? && req.start.value.after {
        forall r | r in out ensures !SameSortKey(sort, r, req.start.value.row) {
          assert Past(sort, req.reverse, req.start.value, r);
          PastIsStrict(sort, req.reverse, req.start.value, r);
        }
      }
    }
  }

  lemma PrimaryCovers(pk: seq<ColId>)
    ensures IncludesPk(PrimarySort(pk), pk)
  {
    PrimaryColumns(pk);
    forall p | p in pk ensures exists e :: e in PrimarySort(pk) && e.0 == p {
      assert (p, true) in PrimarySort(pk);
    }
  }

  lemma TreesAt(pk: seq<ColId>, ix: Indexes, s: Sort)
    requires Trees(pk, ix)
    ensures PrimarySort(pk) in ix && (s in ix ==> IncludesPk(s, pk) && BT.Ok(SortLt(s), ix[s]))
  {
  }

  lemma RootOf(lt: Lt, t: BT.Tree)
    requires BT.Ok(lt, t)
    ensures BT.RootShape(t.root, BT.Height(t.root)) && Sorted(lt, BT.Flat(t.root)) && BT.Contents(t) == BT.Flat(t.root)
  {
  }

  lemma LookupHits(lt: Lt, s: seq<Row>, key: Row)
    ensures Lookup(lt, s, key).Some? <==> Hit(lt, s, key)
  {
  }

  lemma PrimaryIs(pk: seq<ColId>, ix: Indexes)
    requires PrimarySort(pk) in ix
    ensures Primary(pk, ix) == BT.Contents(ix[PrimarySort(pk)]) == BT.Flat(ix[PrimarySort(pk)].root)
  {
  }

  lemma PrimarySorted(pk: seq<ColId>, ix: Indexes)
    requires Trees(pk, ix)
    ensures StrictWeak(SortLt(PrimarySort(pk))) && PrimarySort(pk) in ix
    ensures Sorted(SortLt(PrimarySort(pk)), Primary(pk, ix))
  {
    SortIsStrictWeak(PrimarySort(pk));
  }

  lemma CheckedIs(lt: Lt, s: seq<Row>, c: SourceChange)
    ensures Checked(lt, s, c) <==> if c.Add? then !Hit(lt, s, c.row) else Hit(lt, s, if c.Edit? then c.old_ else c.row)
  {
  }

  lemma SplitIs(keys: seq<ColId>, c: SourceChange)
    requires ShouldSplit(keys, c)
    ensures c.Edit? && c == Edit(c.old_, c.row)
  {
  }

  ghost predicate IndexWritten(s: Sort, t: BT.Tree, c: SourceChange, t': BT.Tree) {
    BT.Ok(SortLt(s), t') && BT.Contents(t') == Applied(SortLt(s), BT.Contents(t), c)
  }

  lemma IndexWrittenIs(s: Sort, t: BT.Tree, c: SourceChange, t': BT.Tree)
    ensures IndexWritten(s, t, c, t') <==>
      BT.Ok(SortLt(s), t') && BT.Contents(t') == Applied(SortLt(s), BT.Contents(t), c)
  {
  }

  lemma {:induction false} AllWritten(pk: seq<ColId>, ix: Indexes, c: SourceChange, ix': Indexes)
    requires Trees(pk, ix) && ix'.Keys == ix.Keys
    requires forall s :: s in ix ==> IndexWritten(s, ix[s], c, ix'[s])
    ensures Trees(pk, ix') && Written(ix, c, ix') && PrimarySort(pk) in ix
    ensures Primary(pk, ix') == Applied(SortLt(PrimarySort(pk)), Primary(pk, ix), c)
    ensures Agree(pk, ix) ==> (Agree(pk, ix') <==> Ties(pk, ix, c))
  {
    hide Applied;
    hide BT.Ok;
    hide BT.Contents;
    hide Agree;
    hide Ties;
    if Agree(pk, ix) { AgreeIff(pk, ix, c, ix'); }
  }

  // ---- what a fetch returns, said without the chain ----

  /** Every constrained column holds its value, which is not null. */
  ghost predicate Meets(c: Constraint, r: Row) {
    forall i :: 0 <= i < |c| ==> Col(r, c[i].0) == c[i].1 && !c[i].1.Null? && !c[i].1.Absent?
  }

  /** Beyond the start row in the direction of travel: strictly for `After`, or tying it for `At`. */
  ghost predicate Past(sort: Sort, reverse: bool, start: Start, r: Row) {
    if start.after then (if reverse then RowBefore(sort, r, start.row) else RowBefore(sort, start.row, r))
    else !(if reverse then RowBefore(sort, start.row, r) else RowBefore(sort, r, start.row))
  }

  ghost predicate InDirection(sort: Sort, reverse: bool, s: seq<Row>) {
    forall i, j :: 0 <= i < j < |s| ==> if reverse then RowBefore(sort, s[j], s[i]) else RowBefore(sort, s[i], s[j])
  }

  lemma MeetsIs(c: Constraint, r: Row)
    ensures Matches(r, c) <==> Meets(c, r)
  {
    forall i | 0 <= i < |c| ensures
      ValuesEqual(Col(r, c[i].0), c[i].1) <==> Col(r, c[i].0) == c[i].1 && !c[i].1.Null? && !c[i].1.Absent?
    {
      EqualitiesAre(Col(r, c[i].0), c[i].1);
    }
  }

  lemma ReachedIs(sort: Sort, req: Request, r: Row)
    ensures Reached(sort, req, r) <==> (req.start.Some? ==> Past(sort, req.reverse, req.start.value, r))
  {
    if req.start.Some? {
      hide RowBefore;
      var s := req.start.value.row;
      RowOrderIs(sort, r, s);
      RowOrderIs(sort, s, r);
      RowLaws(sort, r, s);
    }
  }

  lemma WantedIs(sort: Sort, filter: Row -> bool, req: Request, r: Row)
    ensures Wants(sort, filter, req, r) <==>
      && filter(r) && (req.constraint.Some? ==> Meets(req.constraint.value, r))
      && (req.start.Some? ==> Past(sort, req.reverse, req.start.value, r))
  {
    hide Matches;
    hide Meets;
    hide Reached;
    hide Past;
    if req.constraint.Some? { MeetsIs(req.constraint.value, r); }
    ReachedIs(sort, req, r);
  }

  lemma PastIsStrict(sort: Sort, reverse: bool, start: Start, r: Row)
    requires start.after && Past(sort, reverse, start, r)
    ensures !SameSortKey(sort, r, start.row)
  {
    hide RowBefore;
    RowOrderIs(sort, r, start.row);
    RowOrderIs(sort, start.row, r);
    RowLaws(sort, r, start.row);
  }

  lemma DirectionIs(sort: Sort, reverse: bool, s: seq<Row>)
    requires Sorted(Travel(sort, reverse), s)
    ensures InDirection(sort, reverse, s)
  {
    hide RowBefore;
    hide Travel;
    forall i, j | 0 <= i < j < |s|
      ensures if reverse then RowBefore(sort, s[j], s[i]) else RowBefore(sort, s[i], s[j])
    {
      assert Travel(sort, reverse)(s[i], s[j]);
      TravelIs(sort, reverse, s[i], s[j]);
      RowOrderIs(sort, s[i], s[j]);
      RowOrderIs(sort, s[j], s[i]);
    }
  }

  /** The rows a fetch owes its caller. */
  predicate Wants(sort: Sort, filter: Row -> bool, req: Request, r: Row) {
    (req.constraint.Some? ==> Matches(r, req.constraint.value)) && Reached(sort, req, r) && filter(r)
  }

  lemma {:induction false} Extended(pk: seq<ColId>, ix: Indexes, sort: Sort, data: BT.Tree)
    requires Trees(pk, ix) && Agree(pk, ix) && sort !in ix && IncludesPk(sort, pk)
    requires BT.Ok(SortLt(sort), data) && SameMembers(BT.Contents(data), Primary(pk, ix))
    ensures Trees(pk, ix[sort := data]) && Agree(pk, ix[sort := data])
  {
    hide BT.Ok;
    hide BT.Contents;
    hide IncludesPk;
  }

  lemma IndexIncludesPk(pk: seq<ColId>, c: Option<Constraint>, sort: Sort)
    requires IncludesPk(sort, pk)
    ensures IncludesPk(IndexSort(pk, c, sort), pk)
  {
    var idx := IndexSort(pk, c, sort);
    forall p | p in pk ensures exists e :: e in idx && e.0 == p {
      var e :| e in sort && e.0 == p;
      if c.Some? && !(|pk| > 1 || !MatchesPk(c.value, pk)) {
        var k :| k in c.value && k.0 == p;
        var i :| 0 <= i < |c.value| && c.value[i] == k;
        ColumnsAre(c.value);
        assert idx[i] == (p, true);
      } else {
        assert e in idx;
      }
    }
  }

  lemma AgreeAt(pk: seq<ColId>, ix: Indexes, s: Sort)
    requires Agree(pk, ix)
    ensures PrimarySort(pk) in ix && (s in ix ==> forall r :: r in BT.Contents(ix[s]) <==> r in Primary(pk, ix))
  {
  }

  lemma StreamReads(idx: Sort, rows: seq<Row>, bound: Option<CU.RowBound>, reverse: bool, s: seq<Row>)
    requires !reverse && bound.None? ==> s == rows
    requires reverse && bound.None? ==> s == Reversed(rows)
    requires !reverse && bound.Some? ==> s == CU.Filter(CU.AboveP(CU.BoundCut(idx, bound.value), true), rows)
    requires reverse && bound.Some? ==> s == Reversed(CU.Filter(CU.UnderP(CU.BoundCut(idx, bound.value), true), rows))
    ensures s == Stream(idx, rows, bound, reverse)
  {
  }

  /** Skip, break and filter over the seek's stream give exactly the wanted rows in order. */
  lemma {:induction false} ChainDelivers(pk: seq<ColId>, sort: Sort, filter: Row -> bool, req: Request, rows: seq<Row>,
      stream: seq<Row>)
    requires var idx := IndexSort(pk, req.constraint, sort);
      Sorted(SortLt(idx), rows) && stream == Stream(idx, rows, SeekBound(req.constraint, idx, req), req.reverse)
    ensures var started := if req.start.None? then stream else SkipUntil(ReachedP(sort, req), stream);
      var matched := if req.constraint.None? then started else TakeWhile(MatchesP(req.constraint.value), started);
      var out := CU.Filter(filter, matched);
      Sorted(Travel(sort, req.reverse), out) && forall r :: r in out <==> r in rows && Wants(sort, filter, req, r)
  {
    hide *;
    var idx := IndexSort(pk, req.constraint, sort);
    var bound := SeekBound(req.constraint, idx, req);
    StreamIs(idx, rows, bound, req.reverse);
    var p := if req.constraint.None? then AnyRow() else MatchesP(req.constraint.value);
    var q := ReachedP(sort, req);
    forall i, j | 0 <= i < j < |stream| ensures LinkAt(p, q, stream, i, j) && OrderAt(sort, req, p, stream, i, j) {
      StreamPair(pk, sort, req, p, stream, i, j);
    }
    Linked(p, q, stream);
    GateIsFilter(p, q, stream);
    GateShape(sort, req, p, q, stream);
    var matched := CU.Filter(Both(p, q), stream);
    OrderLinked(sort, req, p, q, stream);
    FilterSorted(Travel(sort, req.reverse), Both(p, q), stream);
    SortedPairs(Travel(sort, req.reverse), matched, filter);
    FilterSorted(Travel(sort, req.reverse), filter, matched);
    forall r ensures r in CU.Filter(filter, matched) <==> r in rows && Wants(sort, filter, req, r) {
      FilterMembers(filter, matched, r);
      FilterMembers(Both(p, q), stream, r);
      WantsIs(sort, filter, req, p, q, r);
      if r in rows && Wants(sort, filter, req, r) { SeekCovers(pk, sort, req, r); }
    }
  }

  function AnyRow(): Row -> bool {
    (_: Row) => true
  }

  ghost predicate LinkAt(p: Row -> bool, q: Row -> bool, s: seq<Row>, i: nat, j: nat) {
    i < |s| && j < |s| && (p(s[j]) ==> p(s[i]) && (q(s[i]) ==> q(s[j])))
  }

  ghost predicate OrderAt(sort: Sort, req: Request, p: Row -> bool, s: seq<Row>, i: nat, j: nat) {
    i < |s| && j < |s| && (p(s[i]) && p(s[j]) ==> Travel(sort, req.reverse)(s[i], s[j]))
  }

  lemma Linked(p: Row -> bool, q: Row -> bool, s: seq<Row>)
    requires forall i, j :: 0 <= i < j < |s| ==> LinkAt(p, q, s, i, j)
    ensures Chained(p, q, s)
  {
    forall i, j | 0 <= i < j < |s| ensures p(s[j]) ==> p(s[i]) && (q(s[i]) ==> q(s[j])) {
      assert LinkAt(p, q, s, i, j);
    }
  }

  lemma OrderLinked(sort: Sort, req: Request, p: Row -> bool, q: Row -> bool, s: seq<Row>)
    requires forall i, j :: 0 <= i < j < |s| ==> OrderAt(sort, req, p, s, i, j)
    ensures forall i, j :: 0 <= i < j < |s| && Both(p, q)(s[i]) && Both(p, q)(s[j]) ==>
      Travel(sort, req.reverse)(s[i], s[j])
  {
    hide Travel;
    forall i, j | 0 <= i < j < |s| && Both(p, q)(s[i]) && Both(p, q)(s[j])
      ensures Travel(sort, req.reverse)(s[i], s[j])
    {
      assert OrderAt(sort, req, p, s, i, j);
    }
  }

  lemma SortedPairs(lt: Lt, s: seq<Row>, f: Row -> bool)
    requires Sorted(lt, s)
    ensures forall i, j :: 0 <= i < j < |s| && f(s[i]) && f(s[j]) ==> lt(s[i], s[j])
  {
  }

  lemma WantsIs(sort: Sort, filter: Row -> bool, req: Request, p: Row -> bool, q: Row -> bool, r: Row)
    requires p == (if req.constraint.None? then AnyRow() else MatchesP(req.constraint.value))
    requires q == ReachedP(sort, req)
    ensures Both(p, q)(r) && filter(r) <==> Wants(sort, filter, req, r)
    ensures Wants(sort, filter, req, r) ==>
      Reached(sort, req, r) && (req.constraint.Some? ==> Matches(r, req.constraint.value))
  {
  }

  /** Absent stages of the chain are the trivial ones. */
  lemma {:induction false} GateShape(sort: Sort, req: Request, p: Row -> bool, q: Row -> bool, s: seq<Row>)
    requires p == (if req.constraint.None? then AnyRow() else MatchesP(req.constraint.value))
    requires q == ReachedP(sort, req)
    ensures TakeWhile(p, SkipUntil(q, s))
         == var started := if req.start.None? then s else SkipUntil(q, s);
            if req.constraint.None? then started else TakeWhile(MatchesP(req.constraint.value), started)
  {
    var started := SkipUntil(q, s);
    if req.constraint.None? { TakeAll(p, started); }
  }

  lemma {:induction false} TakeAll(p: Row -> bool, s: seq<Row>)
    requires forall r :: p(r)
    ensures TakeWhile(p, s) == s
  {
    if s != [] { TakeAll(p, s[1..]); }
  }

  lemma {:induction false} StreamPair(pk: seq<ColId>, sort: Sort, req: Request, p: Row -> bool, s: seq<Row>, i: nat,
      j: nat)
    requires p == if req.constraint.None? then AnyRow() else MatchesP(req.constraint.value)
    requires i < j < |s|
    requires var idx := IndexSort(pk, req.constraint, sort);
      && Sorted(Travel(idx, req.reverse), s)
      && forall r :: r in s ==> Within(idx, SeekBound(req.constraint, idx, req), req.reverse, r)
    ensures LinkAt(p, ReachedP(sort, req), s, i, j) && OrderAt(sort, req, p, s, i, j)
  {
    hide IndexSort;
    hide Travel;
    hide Within;
    hide SeekBound;
    hide Reached;
    hide Matches;
    var idx := IndexSort(pk, req.constraint, sort);
    assert Travel(idx, req.reverse)(s[i], s[j]);
    if p(s[j]) {
      if req.constraint.Some? { MatchesFirst(pk, sort, req, s[i], s[j]); }
      MatchedOrder(pk, sort, req, s[i], s[j]);
      if Reached(sort, req, s[i]) { ReachedOnward(sort, req, s[i], s[j]); }
    }
  }

  /** The reference meaning of a fetch: sort all rows for the connection, walk them in the
      requested direction, keep the wanted ones. */
  ghost function FullScan(sort: Sort, filter: Row -> bool, req: Request, rows: seq<Row>): seq<Row> {
    var sorted := StableSort(SortLt(sort), rows);
    CU.Filter((r: Row) => Wants(sort, filter, req, r), if req.reverse then Reversed(sorted) else sorted)
  }

  lemma {:induction false} FullScanIs(sort: Sort, filter: Row -> bool, req: Request, rows: seq<Row>, out: seq<Row>)
    requires NoTies(SortLt(sort), rows) && Sorted(Travel(sort, req.reverse), out)
    requires forall r :: r in out <==> r in rows && Wants(sort, filter, req, r)
    ensures out == FullScan(sort, filter, req, rows)
  {
    hide StableSort;
    hide CU.Filter;
    hide Reversed;
    hide Wants;
    var wants := (r: Row) => Wants(sort, filter, req, r);
    var sorted := StableSort(SortLt(sort), rows);
    var walk := if req.reverse then Reversed(sorted) else sorted;
    SortIsStrictWeak(sort);
    StableSortSorts(SortLt(sort), rows);
    ReversedSorted(sort, sorted);
    SortedPairs(Travel(sort, req.reverse), walk, wants);
    FilterSorted(Travel(sort, req.reverse), wants, walk);
    forall r ensures r in CU.Filter(wants, walk) <==> r in out {
      FilterMembers(wants, walk, r);
      ReversedMembers(sorted, r);
    }
    TravelAsymmetric(sort, req.reverse);
    SortedUnique(Travel(sort, req.reverse), out, CU.Filter(wants, walk));
  }

  lemma TravelAsymmetric(sort: Sort, reverse: bool)
    ensures forall a, b :: Travel(sort, reverse)(a, b) ==> !Travel(sort, reverse)(b, a)
  {
    forall a, b ensures Travel(sort, reverse)(a, b) ==> !Travel(sort, reverse)(b, a) {
      TravelIs(sort, reverse, a, b);
      TravelIs(sort, reverse, b, a);
      RowLaws(sort, a, b);
    }
  }

  /** A strictly sorted list is determined by its members. */
  lemma {:induction false} SortedUnique(lt: Lt, a: seq<Row>, b: seq<Row>)
    requires (forall x, y :: lt(x, y) ==> !lt(y, x)) && Sorted(lt, a) && Sorted(lt, b) && SameMembers(a, b)
    ensures a == b
  {
    if a != [] { assert a[0] in a; }
    if b != [] { assert b[0] in b; }
    if a != [] && b != [] {
      assert a[0] in b && b[0] in a;
      assert a[0] == b[0];
      forall r ensures r in a[1..] <==> r in b[1..] {
        assert (r in a <==> r in b) && !lt(a[0], a[0]);
        if r in a[1..] { assert lt(a[0], r); assert r in b; }
        if r in b[1..] { assert lt(b[0], r); assert r in a; }
      }
      SortedUnique(lt, a[1..], b[1..]);
      assert a == [a[0]] + a[1..] && b == [b[0]] + b[1..];
    }
  }
}
