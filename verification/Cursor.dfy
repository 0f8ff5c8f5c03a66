/** The bounded ordered cursors of rust/src/btree.rs (`BTreeCursor`): a spine of (node, child
    index) entries, a current leaf and a position in it. */
module Cursor {
  import opened Values
  import opened Order
  import opened Lists
  import opened BTree

  // ---- bounds ----

  /** A scan-start cell: a value, or a sentinel below or above every value. */
  datatype Bound = Min | Max | Val(v: Value)

  type RowBound = seq<(ColId, Bound)>

  /** The first entry for a column; a missing column counts as `Min`. */
  function BoundAt(bound: RowBound, c: ColId): Bound {
    if bound == [] then Min
    else if bound[0].0 == c then bound[0].1
    else BoundAt(bound[1..], c)
  }

  /** `cmp_bound_row` */
  function CompareBound(sort: Sort, bound: RowBound, row: Row): Ordering {
    if sort == [] then Equal
    else
      var c := match BoundAt(bound, sort[0].0)
        case Min => Less
        case Max => Greater
        case Val(v) => CompareValues(v, Col(row, sort[0].0));
      if c.Equal? then CompareBound(sort[1..], bound, row) else Directed(c, sort[0].1)
  }

  /** The cell a bound has for a column: that of its first entry, or the one below every value when
      there is none. */
  ghost predicate HasBound(bound: RowBound, c: ColId, b: Bound) {
    || (exists k :: 0 <= k < |bound| && bound[k] == (c, b) && forall j :: 0 <= j < k ==> bound[j].0 != c)
    || (b == Min && forall k :: 0 <= k < |bound| ==> bound[k].0 != c)
  }

  lemma {:induction false} BoundAtIs(bound: RowBound, c: ColId, b: Bound)
    ensures BoundAt(bound, c) == b <==> HasBound(bound, c, b)
  {
    if bound != [] {
      var rest := bound[1..];
      assert forall k :: 0 <= k < |rest| ==> rest[k] == bound[k + 1];
      if bound[0].0 == c {
        assert bound[0] == (c, bound[0].1);
      } else {
        BoundAtIs(rest, c, b);
        if k :| 0 <= k < |rest| && rest[k] == (c, b) && forall j :: 0 <= j < k ==> rest[j].0 != c {
          assert bound[k + 1] == (c, b) && forall j :: 0 <= j < k + 1 ==> bound[j].0 != c;
        }
        if k :| 0 <= k < |bound| && bound[k] == (c, b) && forall j :: 0 <= j < k ==> bound[j].0 != c {
          assert rest[k - 1] == (c, b) && forall j :: 0 <= j < k - 1 ==> rest[j].0 != c;
        }
        if forall k :: 0 <= k < |rest| ==> rest[k].0 != c {
          forall k | 0 <= k < |bound| ensures bound[k].0 != c { assert k > 0 ==> bound[k] == rest[k - 1]; }
        }
      }
    }
  }

  /** A bound's cell is below, or above, a row's cell. */
  ghost predicate CellUnder(b: Bound, v: Value) {
    b.Min? || (b.Val? && CellBefore(b.v, v))
  }

  ghost predicate CellOver(b: Bound, v: Value) {
    b.Max? || (b.Val? && CellBefore(v, b.v))
  }

  ghost predicate Toward(b: Bound, v: Value, under: bool) {
    if under then CellUnder(b, v) else CellOver(b, v)
  }

  /** Column `i` is the first on which the bound does not hold the row's own cell, and there it is
      below the row in the sort's direction (or above it). */
  ghost predicate BoundDecides(sort: Sort, bound: RowBound, row: Row, i: nat, below: bool)
    requires i < |sort|
  {
    && (forall k :: 0 <= k < i ==> HasBound(bound, sort[k].0, Val(Col(row, sort[k].0))))
    && exists b :: HasBound(bound, sort[i].0, b) && Toward(b, Col(row, sort[i].0), sort[i].1 == below)
  }

  /** `cmp_bound_row`, said without the comparators. */
  lemma {:induction false} BoundOrderIs(sort: Sort, bound: RowBound, row: Row)
    ensures CompareBound(sort, bound, row).Less? <==>
      exists i :: 0 <= i < |sort| && BoundDecides(sort, bound, row, i, true)
    ensures CompareBound(sort, bound, row).Greater? <==>
      exists i :: 0 <= i < |sort| && BoundDecides(sort, bound, row, i, false)
  {
    if sort != [] {
      var (rest, cell, b) := (sort[1..], Col(row, sort[0].0), BoundAt(bound, sort[0].0));
      hide CellBefore;
      hide CompareValues;
      hide HasBound;
      BoundOrderIs(rest, bound, row);
      forall x ensures HasBound(bound, sort[0].0, x) <==> x == b { BoundAtIs(bound, sort[0].0, x); }
      if b.Val? {
        CellOrderIs(b.v, cell);
        ValueLaws(b.v, cell);
      }
      BoundStep(sort, bound, row, true, b);
      BoundStep(sort, bound, row, false, b);
    }
  }

  lemma {:induction false} BoundStep(sort: Sort, bound: RowBound, row: Row, below: bool, b: Bound)
    requires sort != [] && forall x :: HasBound(bound, sort[0].0, x) <==> x == b
    ensures (exists i :: 0 <= i < |sort| && BoundDecides(sort, bound, row, i, below)) <==>
      || Toward(b, Col(row, sort[0].0), sort[0].1 == below)
      || (b == Val(Col(row, sort[0].0))
          && exists i :: 0 <= i < |sort[1..]| && BoundDecides(sort[1..], bound, row, i, below))
  {
    hide HasBound;
    hide CellUnder;
    hide CellOver;
    var rest := sort[1..];
    assert HasBound(bound, sort[0].0, b);
    assert BoundDecides(sort, bound, row, 0, below) <==>
      Toward(b, Col(row, sort[0].0), sort[0].1 == below);
    forall i | 0 <= i < |rest|
      ensures BoundDecides(sort, bound, row, i + 1, below) <==>
        b == Val(Col(row, sort[0].0)) && BoundDecides(rest, bound, row, i, below)
    {
      BoundLater(sort, bound, row, below, i);
    }
    if i :| 0 <= i < |rest| && BoundDecides(rest, bound, row, i, below) && b == Val(Col(row, sort[0].0)) {
      assert BoundDecides(sort, bound, row, i + 1, below);
    }
    if i :| 0 <= i < |sort| && BoundDecides(sort, bound, row, i, below) {
      if i > 0 { assert BoundDecides(rest, bound, row, i - 1, below); }
    }
  }

  lemma BoundLater(sort: Sort, bound: RowBound, row: Row, below: bool, i: nat)
    requires i + 1 < |sort|
    ensures BoundDecides(sort, bound, row, i + 1, below) <==>
      HasBound(bound, sort[0].0, Val(Col(row, sort[0].0))) && BoundDecides(sort[1..], bound, row, i, below)
  {
    hide HasBound;
    hide CellUnder;
    hide CellOver;
    var rest := sort[1..];
    assert forall k :: 0 <= k < |rest| ==> rest[k] == sort[k + 1];
    if HasBound(bound, sort[0].0, Val(Col(row, sort[0].0))) && BoundDecides(rest, bound, row, i, below) {
      forall k | 0 <= k < i + 1 ensures HasBound(bound, sort[k].0, Val(Col(row, sort[k].0))) {
        if k > 0 { assert HasBound(bound, rest[k - 1].0, Val(Col(row, rest[k - 1].0))); }
      }
    }
    if BoundDecides(sort, bound, row, i + 1, below) {
      forall k | 0 <= k < i ensures HasBound(bound, rest[k].0, Val(Col(row, rest[k].0))) {
        assert HasBound(bound, sort[k + 1].0, Val(Col(row, sort[k + 1].0)));
      }
    }
  }

  type Cut = Row -> Ordering

  function BoundCut(sort: Sort, bound: RowBound): Cut {
    (row: Row) => CompareBound(sort, bound, row)
  }

  /** A bound splits every ordered set: rows it is above, at most one key it equals, rows it is
      below, in that order. */
  ghost predicate IsCut(lt: Lt, cut: Cut) {
    forall a, b {:trigger cut(a), cut(b)} :: lt(a, b) ==> (cut(b).Less? || cut(a).Greater?)
  }

  lemma {:induction false} CompareBoundMonotone(sort: Sort, bound: RowBound, a: Row, b: Row)
    requires CompareRows(sort, a, b).Less?
    ensures CompareBound(sort, bound, b).Less? || CompareBound(sort, bound, a).Greater?
  {
    var (c, asc) := sort[0];
    var (x, y) := (Col(a, c), Col(b, c));
    ValueLaws(x, y);
    match BoundAt(bound, c)
    case Min =>
    case Max =>
    case Val(v) =>
      ValueLaws(v, x);
      ValueLaws(v, y);
      if x == y {
        if v == x { CompareBoundMonotone(sort[1..], bound, a, b); }
      } else if CompareValues(x, v).Less? && CompareValues(v, y).Less? {
        ValueTransitive(x, v, y);
      } else if CompareValues(y, v).Less? && CompareValues(v, x).Less? {
        ValueTransitive(y, v, x);
      } else if CompareValues(v, x).Less? && CompareValues(x, y).Less? {
        ValueTransitive(v, x, y);
      } else if CompareValues(v, y).Less? && CompareValues(y, x).Less? {
        ValueTransitive(v, y, x);
      } else if CompareValues(x, v).Less? && CompareValues(y, x).Less? {
        ValueTransitive(y, x, v);
      } else if CompareValues(y, v).Less? && CompareValues(x, y).Less? {
        ValueTransitive(x, y, v);
      }
  }

  /** Every seek bound, with sentinels and mixed directions, is a cut of its sort's order. */
  lemma BoundIsCut(sort: Sort, bound: RowBound)
    ensures IsCut(SortLt(sort), BoundCut(sort, bound))
  {
    forall a, b | SortLt(sort)(a, b)
      ensures BoundCut(sort, bound)(b).Less? || BoundCut(sort, bound)(a).Greater?
    {
      CompareBoundMonotone(sort, bound, a, b);
    }
  }

  /** Rows at or above the bound, or strictly above it. */
  predicate Above(cut: Cut, inclusive: bool, r: Row) {
    if inclusive then !cut(r).Greater? else cut(r).Less?
  }

  /** Rows at or below the bound, or strictly below it. */
  predicate Under(cut: Cut, inclusive: bool, r: Row) {
    if inclusive then !cut(r).Less? else cut(r).Greater?
  }

  function Filter(p: Row -> bool, s: seq<Row>): seq<Row> {
    if s == [] then []
    else (if p(s[0]) then [s[0]] else []) + Filter(p, s[1..])
  }

  // ---- the spine as a value ----

  type Spine = seq<(BNode, nat)>

  /** Entry `k` is an internal node of height `top - k` with a valid child index. */
  ghost predicate SpineOk(stack: Spine, top: nat) {
    && |stack| <= top
    && forall k :: 0 <= k < |stack| ==> Entry(stack[k], top - k)
  }

  ghost predicate Entry(e: (BNode, nat), h: nat) {
    e.0.Internal? && h > 0 && Shape(e.0, h) && e.1 < |e.0.children|
  }

  /** Rows right of the path, nearest first. */
  ghost function RightOf(stack: Spine): seq<Row> {
    if stack == [] then []
    else
      var e := Last(stack);
      RightRows(e) + RightOf(stack[..|stack| - 1])
  }

  /** Rows left of the path. */
  ghost function LeftOf(stack: Spine): seq<Row> {
    if stack == [] then []
    else LeftOf(stack[..|stack| - 1]) + LeftRows(Last(stack))
  }

  ghost function RightRows(e: (BNode, nat)): seq<Row> {
    if e.0.Internal? && e.1 < |e.0.children| then FlatAll(e.0.children[e.1 + 1..]) else []
  }

  ghost function LeftRows(e: (BNode, nat)): seq<Row> {
    if e.0.Internal? && e.1 < |e.0.children| then FlatAll(e.0.children[..e.1]) else []
  }

  function Child(e: (BNode, nat)): BNode
    requires e.0.Internal? && e.1 < |e.0.children|
  {
    e.0.children[e.1]
  }

  /** Pushing an entry splits its node's rows around the chosen child. */
  lemma {:induction false} Push(stack: Spine, e: (BNode, nat), top: nat)
    requires SpineOk(stack, top) && |stack| < top && Entry(e, top - |stack|)
    ensures SpineOk(stack + [e], top) && Shape(Child(e), top - |stack| - 1)
    ensures Flat(e.0) == LeftRows(e) + Flat(Child(e)) + RightRows(e)
    ensures RightOf(stack + [e]) == RightRows(e) + RightOf(stack)
    ensures LeftOf(stack + [e]) == LeftOf(stack) + LeftRows(e)
  {
    hide FlatAll;
    FlatAllAt(e.0.children, e.1);
    assert (stack + [e])[..|stack|] == stack;
  }

  /** Popping the last entry. */
  lemma {:induction false} Pop(stack: Spine, top: nat)
    requires SpineOk(stack, top) && stack != []
    ensures var (e, rest) := (Last(stack), stack[..|stack| - 1]);
      && SpineOk(rest, top) && Entry(e, top - |rest|)
      && RightOf(stack) == RightRows(e) + RightOf(rest)
      && LeftOf(stack) == LeftOf(rest) + LeftRows(e)
  {
    hide FlatAll;
  }

  /** Moving an entry one child to the right. */
  lemma {:induction false} ShiftRight(e: (BNode, nat), h: nat)
    requires Entry(e, h) && e.1 + 1 < |e.0.children|
    ensures Entry((e.0, e.1 + 1), h)
    ensures RightRows(e) == Flat(e.0.children[e.1 + 1]) + RightRows((e.0, e.1 + 1))
  {
    hide Flat;
    var tail := e.0.children[e.1 + 1..];
    FlatAllAt(tail, 0);
    assert tail[..0] == [] && tail[0] == e.0.children[e.1 + 1] && tail[1..] == e.0.children[e.1 + 2..];
  }

  lemma {:induction false} ShiftLeft(e: (BNode, nat), h: nat)
    requires Entry(e, h) && e.1 > 0
    ensures Entry((e.0, e.1 - 1), h)
    ensures LeftRows(e) == LeftRows((e.0, e.1 - 1)) + Flat(e.0.children[e.1 - 1])
  {
    hide Flat;
    var front := e.0.children[..e.1];
    FlatAllAt(front, e.1 - 1);
    assert front[..e.1 - 1] == e.0.children[..e.1 - 1] && front[e.1 - 1] == e.0.children[e.1 - 1] && front[e.1..] == [];
  }

  lemma Ends(e: (BNode, nat), h: nat)
    requires Entry(e, h)
    ensures e.1 + 1 == |e.0.children| ==> RightRows(e) == []
    ensures e.1 == 0 ==> LeftRows(e) == []
    ensures |e.0.keys| == |e.0.children|
  {
  }

  lemma Opens(n: BNode, h: nat)
    requires Shape(n, h)
    ensures n.Leaf? <==> h == 0
    ensures n.Leaf? ==> n.keys != [] && Flat(n) == n.keys
    ensures n.Internal? ==>
      h > 0 && |n.keys| == |n.children| && |n.children| > 0 && Entry((n, 0), h) && Entry((n, |n.children| - 1), h)
  {
  }

  // ---- seeking ----

  lemma {:induction false} FilterConcat(p: Row -> bool, a: seq<Row>, b: seq<Row>)
    ensures Filter(p, a + b) == Filter(p, a) + Filter(p, b)
  {
    if a == [] {
      assert a + b == b;
    } else {
      FilterConcat(p, a[1..], b);
      FilterFront(p, a, b);
    }
  }

  lemma {:induction false} FilterFront(p: Row -> bool, a: seq<Row>, b: seq<Row>)
    requires a != [] && Filter(p, a[1..] + b) == Filter(p, a[1..]) + Filter(p, b)
    ensures Filter(p, a + b) == Filter(p, a) + Filter(p, b)
  {
    hide *;
    assert (a + b)[0] == a[0] && (a + b)[1..] == a[1..] + b;
    FilterStep(p, a);
    FilterStep(p, a + b);
  }

  lemma {:induction false} FilterStep(p: Row -> bool, s: seq<Row>)
    requires s != []
    ensures Filter(p, s) == (if p(s[0]) then [s[0]] else []) + Filter(p, s[1..])
  {
  }

  lemma {:induction false} FilterAll(p: Row -> bool, s: seq<Row>)
    requires forall i :: 0 <= i < |s| ==> p(s[i])
    ensures Filter(p, s) == s
  {
    if s != [] { FilterAll(p, s[1..]); }
  }

  lemma {:induction false} FilterNone(p: Row -> bool, s: seq<Row>)
    requires forall i :: 0 <= i < |s| ==> !p(s[i])
    ensures Filter(p, s) == []
  {
    if s != [] { FilterNone(p, s[1..]); }
  }

  lemma {:induction false} FilterThree(p: Row -> bool, a: seq<Row>, b: seq<Row>, c: seq<Row>)
    ensures Filter(p, a + b + c) == Filter(p, a) + Filter(p, b) + Filter(p, c)
  {
    FilterConcat(p, a + b, c);
    FilterConcat(p, a, b);
  }

  function AboveP(cut: Cut, inclusive: bool): Row -> bool {
    (r: Row) => Above(cut, inclusive, r)
  }

  function UnderP(cut: Cut, inclusive: bool): Row -> bool {
    (r: Row) => Under(cut, inclusive, r)
  }

  /** Everything up to a row below the bound is below it; everything after a row not below it
      is above it. */
  lemma CutSides(lt: Lt, cut: Cut, s: seq<Row>, i: nat)
    requires IsCut(lt, cut) && Sorted(lt, s) && i < |s|
    ensures cut(s[i]).Greater? ==> forall j :: 0 <= j <= i ==> cut(s[j]).Greater?
    ensures !cut(s[i]).Greater? ==> forall j :: i < j < |s| ==> cut(s[j]).Less?
    ensures cut(s[i]).Less? ==> forall j :: i <= j < |s| ==> cut(s[j]).Less?
  {
  }

  /** Three runs of a sorted sequence of which the first lies below the bound and the third
      above it. */
  lemma {:induction false} SeekParts(cut: Cut, inclusive: bool, a: seq<Row>, b: seq<Row>, c: seq<Row>)
    requires forall j :: 0 <= j < |a| ==> cut(a[j]).Greater?
    requires forall j :: 0 <= j < |c| ==> cut(c[j]).Less?
    ensures Filter(AboveP(cut, inclusive), a + b + c) == Filter(AboveP(cut, inclusive), b) + c
    ensures Filter(UnderP(cut, inclusive), a + b + c) == a + Filter(UnderP(cut, inclusive), b)
  {
    hide Filter;
    FilterThree(AboveP(cut, inclusive), a, b, c);
    FilterThree(UnderP(cut, inclusive), a, b, c);
    FilterNone(AboveP(cut, inclusive), a);
    FilterAll(AboveP(cut, inclusive), c);
    FilterAll(UnderP(cut, inclusive), a);
    FilterNone(UnderP(cut, inclusive), c);
  }

  /** The chosen child: every earlier cached maximum is below the bound and, unless it is the
      last, its own is not. */
  ghost predicate Chosen(cut: Cut, n: BNode, i: nat) {
    && n.Internal? && |n.keys| == |n.children| && i < |n.children|
    && (i > 0 ==> cut(n.keys[i - 1]).Greater?)
    && (i + 1 < |n.children| ==> !cut(n.keys[i]).Greater?)
  }

  lemma {:induction false} SeekChild(lt: Lt, cut: Cut, inclusive: bool, n: BNode, i: nat, h: nat)
    requires IsCut(lt, cut) && h > 0 && Shape(n, h) && Sorted(lt, Flat(n)) && Chosen(cut, n, i)
    ensures Shape(n.children[i], h - 1) && Sorted(lt, Flat(n.children[i]))
    ensures Filter(AboveP(cut, inclusive), Flat(n))
      == Filter(AboveP(cut, inclusive), Flat(n.children[i])) + RightRows((n, i))
    ensures Filter(UnderP(cut, inclusive), Flat(n))
      == LeftRows((n, i)) + Filter(UnderP(cut, inclusive), Flat(n.children[i]))
  {
    hide *;
    ChosenIn(cut, n, i);
    EarlierBelow(lt, cut, n, i, h);
    LaterAbove(lt, cut, n, i, h);
    SideRows(lt, n, i, h);
    SeekParts(cut, inclusive, LeftRows((n, i)), Flat(n.children[i]), RightRows((n, i)));
  }

  lemma {:induction false} SideRows(lt: Lt, n: BNode, i: nat, h: nat)
    requires h > 0 && Shape(n, h) && Sorted(lt, Flat(n)) && n.Internal? && i < |n.children|
    ensures var (a, b, c) := (LeftRows((n, i)), Flat(n.children[i]), RightRows((n, i)));
      Flat(n) == a + b + c && Sorted(lt, a) && Sorted(lt, b) && Sorted(lt, c)
    ensures Shape(n.children[i], h - 1)
  {
    FlatAllAt(n.children, i);
    SortedParts(lt, LeftRows((n, i)), Flat(n.children[i]), RightRows((n, i)));
  }

  lemma {:induction false} EarlierBelow(lt: Lt, cut: Cut, n: BNode, i: nat, h: nat)
    requires IsCut(lt, cut) && h > 0 && Shape(n, h) && Sorted(lt, Flat(n)) && Chosen(cut, n, i)
    ensures var a := LeftRows((n, i)); forall j :: 0 <= j < |a| ==> cut(a[j]).Greater?
  {
    SideRows(lt, n, i, h);
    if i > 0 {
      KidsLast(n.keys[..i], n.children[..i], h - 1);
      var a := LeftRows((n, i));
      CutSides(lt, cut, a, |a| - 1);
    }
  }

  lemma {:induction false} LaterAbove(lt: Lt, cut: Cut, n: BNode, i: nat, h: nat)
    requires IsCut(lt, cut) && h > 0 && Shape(n, h) && Sorted(lt, Flat(n)) && Chosen(cut, n, i)
    ensures var c := RightRows((n, i)); forall j :: 0 <= j < |c| ==> cut(c[j]).Less?
  {
    SideRows(lt, n, i, h);
    if i + 1 < |n.children| {
      ShapeFlat(n.children[i], h - 1);
      AfterLast(lt, cut, LeftRows((n, i)), Flat(n.children[i]), RightRows((n, i)));
    }
  }

  lemma AfterLast(lt: Lt, cut: Cut, a: seq<Row>, b: seq<Row>, c: seq<Row>)
    requires IsCut(lt, cut) && Sorted(lt, a + b + c) && b != [] && !cut(Last(b)).Greater?
    ensures forall j :: 0 <= j < |c| ==> cut(c[j]).Less?
  {
    var (s, k) := (a + b + c, |a| + |b| - 1);
    assert s[k] == Last(b);
    CutSides(lt, cut, s, k);
    assert forall j :: 0 <= j < |c| ==> c[j] == s[k + 1 + j];
  }

  /** `leaf_lower_bound` and, clamped, `child_index_bound`: the first row not below the bound. */
  method CutLower(lt: Lt, cut: Cut, keys: seq<Row>) returns (lo: nat)
    requires IsCut(lt, cut) && Sorted(lt, keys)
    ensures lo <= |keys|
    ensures forall j :: 0 <= j < lo ==> cut(keys[j]).Greater?
    ensures forall j :: lo <= j < |keys| ==> !cut(keys[j]).Greater?
  {
    lo := 0;
    var hi := |keys|;
    while lo < hi
      invariant lo <= hi <= |keys|
      invariant forall j :: 0 <= j < lo ==> cut(keys[j]).Greater?
      invariant forall j :: hi <= j < |keys| ==> !cut(keys[j]).Greater?
    {
      var mid := (lo + hi) / 2;
      CutSides(lt, cut, keys, mid);
      if cut(keys[mid]).Greater? { lo := mid + 1; } else { hi := mid; }
    }
  }

  /** `leaf_upper_bound`: the first row strictly above the bound. */
  method CutUpper(lt: Lt, cut: Cut, keys: seq<Row>) returns (lo: nat)
    requires IsCut(lt, cut) && Sorted(lt, keys)
    ensures lo <= |keys|
    ensures forall j :: 0 <= j < lo ==> !cut(keys[j]).Less?
    ensures forall j :: lo <= j < |keys| ==> cut(keys[j]).Less?
  {
    lo := 0;
    var hi := |keys|;
    while lo < hi
      invariant lo <= hi <= |keys|
      invariant forall j :: 0 <= j < lo ==> !cut(keys[j]).Less?
      invariant forall j :: hi <= j < |keys| ==> cut(keys[j]).Less?
    {
      var mid := (lo + hi) / 2;
      if cut(keys[mid]).Less? {
        CutSides(lt, cut, keys, mid);
        hi := mid;
      } else {
        assert forall j :: 0 <= j < mid ==> lt(keys[j], keys[mid]);
        lo := mid + 1;
      }
    }
  }

  method ChildIndexBound(lt: Lt, cut: Cut, n: BNode, ghost h: nat) returns (i: nat)
    requires IsCut(lt, cut) && h > 0 && n.Internal? && Shape(n, h) && Sorted(lt, Flat(n))
    ensures Chosen(cut, n, i) && Entry((n, i), h)
  {
    KeysSorted(lt, n, h);
    hide Flat;
    var lo := CutLower(lt, cut, n.keys);
    i := if lo == |n.keys| then |n.keys| - 1 else lo;
  }

  /** A split of a leaf at `p` where the predicate starts to hold, or stops. */
  lemma {:induction false} FilterSuffix(p: Row -> bool, s: seq<Row>, k: nat)
    requires k <= |s| && (forall j :: 0 <= j < k ==> !p(s[j])) && (forall j :: k <= j < |s| ==> p(s[j]))
    ensures Filter(p, s) == s[k..]
  {
    hide Filter;
    FilterNone(p, s[..k]);
    FilterAll(p, s[k..]);
    FilterConcat(p, s[..k], s[k..]);
    assert s == s[..k] + s[k..];
  }

  lemma {:induction false} FilterPrefix(p: Row -> bool, s: seq<Row>, k: nat)
    requires k <= |s| && (forall j :: 0 <= j < k ==> p(s[j])) && (forall j :: k <= j < |s| ==> !p(s[j]))
    ensures Filter(p, s) == s[..k]
  {
    hide Filter;
    FilterAll(p, s[..k]);
    FilterNone(p, s[k..]);
    FilterConcat(p, s[..k], s[k..]);
    assert s == s[..k] + s[k..];
  }

  /** Where a forward seek lands in the leaf, skipping the one equal row when exclusive. */
  method LeafSeek(lt: Lt, cut: Cut, inclusive: bool, keys: seq<Row>) returns (pos: nat)
    requires IsCut(lt, cut) && Sorted(lt, keys)
    ensures pos <= |keys| && Filter(AboveP(cut, inclusive), keys) == keys[pos..]
  {
    hide Filter;
    pos := CutLower(lt, cut, keys);
    if !inclusive && pos < |keys| && cut(keys[pos]).Equal? {
      CutSides(lt, cut, keys, pos);
      pos := pos + 1;
    } else if pos < |keys| {
      CutSides(lt, cut, keys, pos);
    }
    FilterSuffix(AboveP(cut, inclusive), keys, pos);
  }

  /** Where a reverse seek lands: rows before `j` qualify. */
  method LeafSeekReverse(lt: Lt, cut: Cut, inclusive: bool, keys: seq<Row>) returns (j: nat)
    requires IsCut(lt, cut) && Sorted(lt, keys)
    ensures j <= |keys| && Filter(UnderP(cut, inclusive), keys) == keys[..j]
  {
    hide Filter;
    if inclusive {
      j := CutUpper(lt, cut, keys);
    } else {
      j := CutLower(lt, cut, keys);
    }
    FilterPrefix(UnderP(cut, inclusive), keys, j);
  }

  lemma ChildIs(n: BNode, i: nat)
    requires n.Internal? && i < |n.children|
    ensures Child((n, i)) == n.children[i]
  {
  }

  lemma SpineBound(stack: Spine, top: nat)
    requires SpineOk(stack, top)
    ensures |stack| <= top
  {
  }

  class BTreeCursor {
    var stack: Spine
    var leaf: Option<BNode>
    var pos: nat
    var reverse: bool
    var started: bool
    ghost const top: nat

    constructor (reverse: bool, ghost top: nat)
      ensures stack == [] && leaf == None && this.reverse == reverse && this.top == top && !started && pos == 0
    {
      this.reverse, this.top := reverse, top;
      stack, leaf, pos, started := [], None, 0, false;
    }

    /** `descend_first` */
    method DescendFirst(start: BNode)
      requires SpineOk(stack, top) && |stack| <= top && Shape(start, top - |stack|)
      modifies `stack, `leaf, `pos
      ensures Placed(stack, leaf, top) && leaf.Some? && leaf.value.keys != [] && pos == 0
      ensures leaf.value.keys + RightOf(stack) == Flat(start) + old(RightOf(stack))
    {
      hide *;
      var node := start;
      while !node.Leaf?
        invariant SpineOk(stack, top) && |stack| <= top && Shape(node, top - |stack|)
        invariant Flat(node) + RightOf(stack) == Flat(start) + old(RightOf(stack))
        decreases node
      {
        Opens(node, top - |stack|);
        Push(stack, (node, 0), top);
        Ends((node, 0), top - |stack|);
        ChildIs(node, 0);
        stack := stack + [(node, 0)];
        node := node.children[0];
      }
      Opens(node, top - |stack|);
      Lands(stack, node, top);
      leaf, pos := Some(node), 0;
    }

    /** `descend_last` */
    method DescendLast(start: BNode)
      requires SpineOk(stack, top) && |stack| <= top && Shape(start, top - |stack|)
      modifies `stack, `leaf, `pos
      ensures Placed(stack, leaf, top) && leaf.Some? && leaf.value.keys != [] && pos == |leaf.value.keys| - 1
      ensures LeftOf(stack) + leaf.value.keys == old(LeftOf(stack)) + Flat(start)
    {
      hide *;
      var node := start;
      while !node.Leaf?
        invariant SpineOk(stack, top) && |stack| <= top && Shape(node, top - |stack|)
        invariant LeftOf(stack) + Flat(node) == old(LeftOf(stack)) + Flat(start)
        decreases node
      {
        Opens(node, top - |stack|);
        var i := |node.children| - 1;
        Push(stack, (node, i), top);
        Ends((node, i), top - |stack|);
        ChildIs(node, i);
        stack := stack + [(node, i)];
        node := node.children[i];
      }
      Opens(node, top - |stack|);
      Lands(stack, node, top);
      leaf, pos := Some(node), |node.keys| - 1;
    }

    /** The descent of both seeks: rows right of the path are above the bound, rows left of it
        below. */
    method DescendTo(lt: Lt, cut: Cut, ghost inclusive: bool, root: BNode) returns (found: BNode)
      requires IsCut(lt, cut) && stack == [] && Shape(root, top) && Sorted(lt, Flat(root))
      modifies `stack
      ensures SpineOk(stack, top) && |stack| == top && found.Leaf? && found.keys != [] && Sorted(lt, found.keys)
      ensures Shape(found, 0)
      ensures Filter(AboveP(cut, inclusive), Flat(root)) == Filter(AboveP(cut, inclusive), found.keys) + RightOf(stack)
      ensures Filter(UnderP(cut, inclusive), Flat(root)) == LeftOf(stack) + Filter(UnderP(cut, inclusive), found.keys)
    {
      hide *;
      found := root;
      NoSpine(top);
      while !found.Leaf?
        invariant SpineOk(stack, top) && |stack| <= top && Shape(found, top - |stack|) && Sorted(lt, Flat(found))
        invariant Filter(AboveP(cut, inclusive), Flat(root))
          == Filter(AboveP(cut, inclusive), Flat(found)) + RightOf(stack)
        invariant Filter(UnderP(cut, inclusive), Flat(root))
          == LeftOf(stack) + Filter(UnderP(cut, inclusive), Flat(found))
        decreases found
      {
        Opens(found, top - |stack|);
        var i := ChildIndexBound(lt, cut, found, top - |stack|);
        ChosenIn(cut, found, i);
        SeekChild(lt, cut, inclusive, found, i, top - |stack|);
        Push(stack, (found, i), top);
        stack := stack + [(found, i)];
        found := found.children[i];
      }
      Opens(found, top - |stack|);
    }

    /** `descend_seek` */
    method DescendSeek(lt: Lt, cut: Cut, inclusive: bool, root: BNode)
      requires IsCut(lt, cut) && stack == [] && Shape(root, top) && Sorted(lt, Flat(root))
      modifies `stack, `leaf, `pos
      ensures Placed(stack, leaf, top) && leaf.Some? && pos <= |leaf.value.keys|
      ensures leaf.value.keys[pos..] + RightOf(stack) == Filter(AboveP(cut, inclusive), Flat(root))
    {
      hide *;
      var node := DescendTo(lt, cut, inclusive, root);
      pos := LeafSeek(lt, cut, inclusive, node.keys);
      Lands(stack, node, top);
      leaf := Some(node);
    }

    /** `descend_seek_reverse` */
    method DescendSeekReverse(lt: Lt, cut: Cut, inclusive: bool, root: BNode)
      requires IsCut(lt, cut) && stack == [] && Shape(root, top) && Sorted(lt, Flat(root))
      modifies `stack, `leaf, `pos
      ensures Placed(stack, leaf, top) && (leaf.Some? ==> pos < |leaf.value.keys|)
      ensures Behind(stack, leaf, pos) == Filter(UnderP(cut, inclusive), Flat(root))
    {
      hide *;
      var node := DescendTo(lt, cut, inclusive, root);
      var j := LeafSeekReverse(lt, cut, inclusive, node.keys);
      Lands(stack, node, top);
      leaf := Some(node);
      if j == 0 {
        assert LeftOf(stack) + node.keys[..0] == LeftOf(stack);
        PrevLeaf();
      } else {
        pos := j - 1;
        BehindIs(stack, leaf, pos);
      }
    }

    /** `next_leaf`: pop to the nearest entry with a right sibling and descend it leftmost. */
    method NextLeaf()
      requires SpineOk(stack, top)
      modifies `stack, `leaf, `pos
      ensures Placed(stack, leaf, top)
      ensures if old(RightOf(stack)) == [] then leaf == None
              else
                leaf.Some? && pos == 0 && leaf.value.keys != []
                && leaf.value.keys + RightOf(stack) == old(RightOf(stack))
    {
      hide *;
      while stack != []
        invariant SpineOk(stack, top) && RightOf(stack) == old(RightOf(stack))
        decreases |stack|
      {
        Pop(stack, top);
        var e := TopEntry(stack);
        stack := stack[..|stack| - 1];
        SpineBound(stack, top);
        Ends(e, top - |stack|);
        EntryIs(e, top - |stack|);
        if e.1 + 1 < |e.0.children| {
          ShiftRight(e, top - |stack|);
          var f := (e.0, e.1 + 1);
          Push(stack, f, top);
          ChildIs(e.0, e.1 + 1);
          EntryIs(f, top - |stack|);
          stack := stack + [f];
          var child := f.0.children[f.1];
          RowsIn(child, top - |stack|);
          DescendFirst(child);
          return;
        }
      }
      RightNil();
      leaf := None;
      Exhausted(stack, top);
    }

    /** `prev_leaf` */
    method PrevLeaf()
      requires SpineOk(stack, top)
      modifies `stack, `leaf, `pos
      ensures Placed(stack, leaf, top) && (leaf.Some? ==> pos < |leaf.value.keys|)
      ensures Behind(stack, leaf, pos) == old(LeftOf(stack)) && (leaf.None? <==> old(LeftOf(stack)) == [])
    {
      hide *;
      while stack != []
        invariant SpineOk(stack, top) && LeftOf(stack) == old(LeftOf(stack))
        decreases |stack|
      {
        Pop(stack, top);
        var e := TopEntry(stack);
        stack := stack[..|stack| - 1];
        SpineBound(stack, top);
        Ends(e, top - |stack|);
        EntryIs(e, top - |stack|);
        if e.1 > 0 {
          ShiftLeft(e, top - |stack|);
          var f := (e.0, e.1 - 1);
          Push(stack, f, top);
          ChildIs(e.0, e.1 - 1);
          EntryIs(f, top - |stack|);
          stack := stack + [f];
          var child := f.0.children[f.1];
          RowsIn(child, top - |stack|);
          DescendLast(child);
          BehindIs(stack, leaf, pos);
          assert leaf.value.keys[..pos + 1] == leaf.value.keys;
          return;
        }
      }
      RightNil();
      leaf := None;
      Exhausted(stack, top);
      BehindIs(stack, leaf, pos);
    }

    /** `normalize_forward`: a seek may land past the end of its leaf. */
    method NormalizeForward()
      requires Placed(stack, leaf, top) && (leaf.Some? ==> pos <= |leaf.value.keys|)
      modifies `stack, `leaf, `pos
      ensures Ready(stack, leaf, pos, top)
      ensures Ahead(stack, leaf, pos) == old(Ahead(stack, leaf, pos))
    {
      hide *;
      while leaf.Some? && !(pos < |leaf.value.keys|)
        invariant Placed(stack, leaf, top) && (leaf.Some? ==> pos <= |leaf.value.keys|)
        invariant Ahead(stack, leaf, pos) == old(Ahead(stack, leaf, pos))
        decreases leaf.Some? && pos == |leaf.value.keys|
      {
        PlacedIs(stack, leaf, top);
        AheadIs(stack, leaf, pos);
        assert leaf.value.keys[pos..] == [];
        NextLeaf();
        AheadIs(stack, leaf, pos);
        assert leaf.Some? ==> leaf.value.keys[0..] == leaf.value.keys;
      }
      ReadyIs(stack, leaf, pos, top);
    }

    /** `normalize_reverse`: from a position past its leaf, fall back to the rows before it. */
    method NormalizeReverse()
      requires Placed(stack, leaf, top)
      modifies `stack, `leaf, `pos
      ensures Ready(stack, leaf, pos, top)
      ensures Behind(stack, leaf, pos)
              == if old(leaf.Some? && pos >= |leaf.value.keys|) then old(LeftOf(stack))
                else old(Behind(stack, leaf, pos))
    {
      hide *;
      PlacedIs(stack, leaf, top);
      while leaf.Some? && !(leaf.value.keys != [] && pos < |leaf.value.keys|)
        invariant Placed(stack, leaf, top)
        invariant (stack == old(stack) && leaf == old(leaf) && pos == old(pos))
          || (old(leaf.Some? && pos >= |leaf.value.keys|) && Behind(stack, leaf, pos) == old(LeftOf(stack))
              && (leaf.Some? ==> leaf.value.keys != [] && pos < |leaf.value.keys|))
        decreases leaf.Some? && !(pos < |leaf.value.keys|)
      {
        PlacedIs(stack, leaf, top);
        PrevLeaf();
      }
      ReadyIs(stack, leaf, pos, top);
    }

    /** `step` */
    method Step()
      requires Ready(stack, leaf, pos, top)
      modifies `stack, `leaf, `pos
      ensures Ready(stack, leaf, pos, top)
      ensures Pending(reverse, stack, leaf, pos) == Tail(old(Pending(reverse, stack, leaf, pos)))
    {
      if reverse { StepBack(); } else { StepOn(); }
    }

    method StepBack()
      requires Ready(stack, leaf, pos, top) && reverse
      modifies `stack, `leaf, `pos
      ensures Ready(stack, leaf, pos, top)
      ensures Pending(reverse, stack, leaf, pos) == Tail(old(Pending(reverse, stack, leaf, pos)))
    {
      hide *;
      ReadyIs(stack, leaf, pos, top);
      PendingIs(reverse, stack, leaf, pos, top);
      if pos == 0 {
        assert leaf.Some? ==> LeftOf(stack) + leaf.value.keys[..0] == LeftOf(stack);
        RightNil();
        PrevLeaf();
      } else {
        pos := pos - 1;
        BehindIs(stack, leaf, pos);
      }
      ReadyIs(stack, leaf, pos, top);
      PendingIs(reverse, stack, leaf, pos, top);
    }

    method StepOn()
      requires Ready(stack, leaf, pos, top) && !reverse
      modifies `stack, `leaf, `pos
      ensures Ready(stack, leaf, pos, top)
      ensures Pending(reverse, stack, leaf, pos) == Tail(old(Pending(reverse, stack, leaf, pos)))
    {
      hide *;
      ReadyIs(stack, leaf, pos, top);
      PendingIs(reverse, stack, leaf, pos, top);
      pos := pos + 1;
      var inLeaf := leaf.Some? && pos < |leaf.value.keys|;
      if !inLeaf {
        assert leaf.Some? ==> leaf.value.keys[pos..] + RightOf(stack) == RightOf(stack);
        RightNil();
        NextLeaf();
        assert leaf.Some? ==> leaf.value.keys[0..] == leaf.value.keys;
      }
      AheadIs(stack, leaf, pos);
      ReadyIs(stack, leaf, pos, top);
      PendingIs(reverse, stack, leaf, pos, top);
    }

    /** `current` */
    method Current() returns (r: Option<Row>)
      requires Ready(stack, leaf, pos, top)
      ensures r == First(Pending(reverse, stack, leaf, pos))
    {
      hide *;
      ReadyIs(stack, leaf, pos, top);
      PendingIs(reverse, stack, leaf, pos, top);
      if leaf.Some? && pos < |leaf.value.keys| { r := Some(leaf.value.keys[pos]); } else { r := None; }
    }

    /** `next_row`: hands out the remaining rows one by one. */
    method NextRow() returns (r: Option<Row>)
      requires Ready(stack, leaf, pos, top)
      modifies `stack, `leaf, `pos, `started
      ensures Ready(stack, leaf, pos, top) && started
      ensures r == First(old(Rest(started, Pending(reverse, stack, leaf, pos))))
      ensures Rest(started, Pending(reverse, stack, leaf, pos))
        == Tail(old(Rest(started, Pending(reverse, stack, leaf, pos))))
    {
      hide *;
      RestIs(started, Pending(reverse, stack, leaf, pos));
      if started {
        Step();
      } else {
        started := true;
      }
      RestIs(started, Pending(reverse, stack, leaf, pos));
      r := Current();
    }
  }

  /** The cursor rests on a row, or is exhausted. */
  ghost predicate Ready(stack: Spine, leaf: Option<BNode>, pos: int, top: nat) {
    Placed(stack, leaf, top) && (leaf.Some? ==> 0 <= pos < |leaf.value.keys|)
  }

  /** Rows from the position on. */
  ghost function Ahead(stack: Spine, leaf: Option<BNode>, pos: int): seq<Row> {
    if leaf.Some? && 0 <= pos <= |leaf.value.keys| then leaf.value.keys[pos..] + RightOf(stack) else []
  }

  /** The current row and those after it, in the direction of travel. */
  ghost function Pending(reverse: bool, stack: Spine, leaf: Option<BNode>, pos: int): seq<Row> {
    if reverse then Reversed(Behind(stack, leaf, pos)) else Ahead(stack, leaf, pos)
  }

  /** The rows not yet handed out. */
  ghost function Rest(started: bool, pending: seq<Row>): seq<Row> {
    if started then Tail(pending) else pending
  }

  function Tail(s: seq<Row>): seq<Row> {
    if s == [] then [] else s[1..]
  }

  function First(s: seq<Row>): Option<Row> {
    if s == [] then None else Some(s[0])
  }

  lemma RestIs(started: bool, pending: seq<Row>)
    ensures Rest(started, pending) == if started then Tail(pending) else pending
  {
  }

  lemma AheadIs(stack: Spine, leaf: Option<BNode>, pos: int)
    ensures leaf.None? ==> Ahead(stack, leaf, pos) == []
    ensures leaf.Some? && 0 <= pos <= |leaf.value.keys| ==>
      Ahead(stack, leaf, pos) == leaf.value.keys[pos..] + RightOf(stack)
  {
  }

  lemma PlacedIs(stack: Spine, leaf: Option<BNode>, top: nat)
    requires Placed(stack, leaf, top)
    ensures SpineOk(stack, top) && (leaf.None? ==> stack == []) && (leaf.Some? ==> leaf.value.keys != [])
  {
  }

  lemma ReadyIs(stack: Spine, leaf: Option<BNode>, pos: int, top: nat)
    ensures Ready(stack, leaf, pos, top) <==> Placed(stack, leaf, top) && (leaf.Some? ==> 0 <= pos < |leaf.value.keys|)
    ensures Placed(stack, leaf, top) ==> SpineOk(stack, top) && (leaf.None? ==> stack == [])
  {
  }

  /** What the two directions have pending, first row and remainder. */
  lemma {:induction false} PendingIs(reverse: bool, stack: Spine, leaf: Option<BNode>, pos: int, top: nat)
    requires Ready(stack, leaf, pos, top)
    ensures leaf.None? ==> Pending(reverse, stack, leaf, pos) == []
    ensures Tail([]) == [] && First([]) == None && Reversed<Row>([]) == []
    ensures !reverse ==> Pending(reverse, stack, leaf, pos) == Ahead(stack, leaf, pos)
    ensures reverse ==> Pending(reverse, stack, leaf, pos) == Reversed(Behind(stack, leaf, pos))
    ensures leaf.Some? ==>
      && First(Pending(reverse, stack, leaf, pos)) == Some(leaf.value.keys[pos])
      && Tail(Pending(reverse, stack, leaf, pos))
         == if reverse then Reversed(LeftOf(stack) + leaf.value.keys[..pos])
           else leaf.value.keys[pos + 1..] + RightOf(stack)
  {
    hide LeftOf;
    hide RightOf;
    if leaf.Some? {
      var (b, k) := (Behind(stack, leaf, pos), leaf.value.keys);
      assert b[..|b| - 1] == LeftOf(stack) + k[..pos];
      assert Last(b) == k[pos];
    }
  }

  /** The cursor rests on a leaf at full depth, or is exhausted. */
  ghost predicate Placed(stack: Spine, leaf: Option<BNode>, top: nat) {
    && SpineOk(stack, top)
    && (if leaf.Some? then |stack| == top && leaf.value.Leaf? && leaf.value.keys != [] else stack == [])
  }

  /** Rows up to and including the position. */
  ghost function Behind(stack: Spine, leaf: Option<BNode>, pos: int): seq<Row> {
    if leaf.Some? && 0 <= pos < |leaf.value.keys| then LeftOf(stack) + leaf.value.keys[..pos + 1] else []
  }

  lemma BehindIs(stack: Spine, leaf: Option<BNode>, pos: int)
    ensures leaf.None? ==> Behind(stack, leaf, pos) == []
    ensures leaf.Some? && 0 <= pos < |leaf.value.keys| ==>
      Behind(stack, leaf, pos) == LeftOf(stack) + leaf.value.keys[..pos + 1]
  {
  }

  function TopEntry(stack: Spine): (e: (BNode, nat))
    requires stack != []
    ensures e == Last(stack)
  {
    stack[|stack| - 1]
  }

  lemma Lands(stack: Spine, node: BNode, top: nat)
    requires SpineOk(stack, top) && |stack| == top && node.Leaf? && node.keys != []
    ensures Placed(stack, Some(node), top)
  {
  }

  lemma Exhausted(stack: Spine, top: nat)
    requires SpineOk(stack, top) && stack == []
    ensures Placed(stack, None, top)
  {
  }

  lemma RightNil()
    ensures RightOf([]) == [] && LeftOf([]) == []
  {
  }

  lemma NoSpine(top: nat)
    ensures SpineOk([], top) && RightOf([]) == [] && LeftOf([]) == []
  {
  }

  lemma ChosenIn(cut: Cut, n: BNode, i: nat)
    requires Chosen(cut, n, i)
    ensures n.Internal? && i < |n.children| && Child((n, i)) == n.children[i]
  {
  }

  lemma EntryIs(e: (BNode, nat), h: nat)
    requires Entry(e, h)
    ensures e.0.Internal? && e.1 < |e.0.children| && h > 0
  {
  }

  lemma RowsIn(n: BNode, h: nat)
    requires Shape(n, h)
    ensures Flat(n) != []
  {
    ShapeFlat(n, h);
  }

  // ---- whole scans ----

  /** `values_from` */
  method ValuesFrom(lt: Lt, t: Tree, bound: Option<Cut>, inclusive: bool) returns (c: BTreeCursor)
    requires Ok(lt, t) && (bound.Some? ==> IsCut(lt, bound.value))
    ensures fresh(c) && Ready(c.stack, c.leaf, c.pos, c.top) && !c.started && !c.reverse
    ensures Pending(false, c.stack, c.leaf, c.pos) == Scan(bound, inclusive, Contents(t))
  {
    hide *;
    OkOpens(lt, t);
    c := new BTreeCursor(false, if t.size == 0 then 0 else Height(t.root));
    NoSpine(c.top);
    if t.size == 0 {
      Exhausted([], c.top);
      ScanEmpty(bound, inclusive);
    } else {
      ScanIs(bound, inclusive, Contents(t));
      match bound {
        case None =>
          c.DescendFirst(t.root);
          PlacedIs(c.stack, c.leaf, c.top);
          assert c.leaf.value.keys[0..] == c.leaf.value.keys;
        case Some(cut) => c.DescendSeek(lt, cut, inclusive, t.root);
      }
      AheadIs(c.stack, c.leaf, c.pos);
      c.NormalizeForward();
    }
    ReadyIs(c.stack, c.leaf, c.pos, c.top);
    PendingIs(false, c.stack, c.leaf, c.pos, c.top);
  }

  /** `values_from_reversed` */
  method ValuesFromReversed(lt: Lt, t: Tree, bound: Option<Cut>, inclusive: bool) returns (c: BTreeCursor)
    requires Ok(lt, t) && (bound.Some? ==> IsCut(lt, bound.value))
    ensures fresh(c) && Ready(c.stack, c.leaf, c.pos, c.top) && !c.started && c.reverse
    ensures Pending(true, c.stack, c.leaf, c.pos) == Reversed(ScanBack(bound, inclusive, Contents(t)))
  {
    hide *;
    OkOpens(lt, t);
    c := new BTreeCursor(true, if t.size == 0 then 0 else Height(t.root));
    NoSpine(c.top);
    if t.size == 0 {
      Exhausted([], c.top);
      BehindIs(c.stack, c.leaf, c.pos);
      ScanEmpty(bound, inclusive);
      assert Contents(t) == [];
    } else {
      ScanIs(bound, inclusive, Contents(t));
      match bound {
        case None =>
          c.DescendLast(t.root);
          BehindIs(c.stack, c.leaf, c.pos);
          assert [] + Flat(t.root) == Flat(t.root);
          assert c.leaf.value.keys[..c.pos + 1] == c.leaf.value.keys;
        case Some(cut) => c.DescendSeekReverse(lt, cut, inclusive, t.root);
      }
      c.NormalizeReverse();
    }
    ReadyIs(c.stack, c.leaf, c.pos, c.top);
    BehindIs(c.stack, c.leaf, c.pos);
    PendingIs(true, c.stack, c.leaf, c.pos, c.top);
  }

  /** The rows a bounded forward scan must visit. */
  ghost function Scan(bound: Option<Cut>, inclusive: bool, s: seq<Row>): seq<Row> {
    match bound case None => s case Some(cut) => Filter(AboveP(cut, inclusive), s)
  }

  /** The rows a bounded reverse scan must visit, in ascending order. */
  ghost function ScanBack(bound: Option<Cut>, inclusive: bool, s: seq<Row>): seq<Row> {
    match bound case None => s case Some(cut) => Filter(UnderP(cut, inclusive), s)
  }

  lemma ScanIs(bound: Option<Cut>, inclusive: bool, s: seq<Row>)
    ensures bound.None? ==> Scan(bound, inclusive, s) == s && ScanBack(bound, inclusive, s) == s
    ensures bound.Some? ==> Scan(bound, inclusive, s) == Filter(AboveP(bound.value, inclusive), s)
    ensures bound.Some? ==> ScanBack(bound, inclusive, s) == Filter(UnderP(bound.value, inclusive), s)
  {
  }

  lemma ScanEmpty(bound: Option<Cut>, inclusive: bool)
    ensures Scan(bound, inclusive, []) == [] && ScanBack(bound, inclusive, []) == []
  {
  }

  lemma {:induction false} OkOpens(lt: Lt, t: Tree)
    requires Ok(lt, t)
    ensures t.size == |Contents(t)| && Contents(t) == Flat(t.root) && Sorted(lt, Flat(t.root))
    ensures t.size != 0 ==> Shape(t.root, Height(t.root))
  {
  }

  /** Pulling until the cursor is dry collects what it had left. */
  method Collect(c: BTreeCursor) returns (out: seq<Row>)
    requires Ready(c.stack, c.leaf, c.pos, c.top)
    modifies c`stack, c`leaf, c`pos, c`started
    ensures out == old(Rest(c.started, Pending(c.reverse, c.stack, c.leaf, c.pos)))
  {
    hide *;
    out := [];
    ghost var all := Rest(c.started, Pending(c.reverse, c.stack, c.leaf, c.pos));
    ghost var rest := all;
    var r := c.NextRow();
    FirstIs(rest);
    while r.Some?
      invariant Ready(c.stack, c.leaf, c.pos, c.top)
      invariant all == out + rest && r == First(rest)
      invariant Rest(c.started, Pending(c.reverse, c.stack, c.leaf, c.pos)) == Tail(rest)
      decreases |rest|
    {
      FirstIs(rest);
      out := out + [r.value];
      rest := Tail(rest);
      r := c.NextRow();
    }
    FirstIs(rest);
  }

  lemma FirstIs(s: seq<Row>)
    ensures First(s).None? <==> s == []
    ensures s != [] ==> First(s) == Some(s[0]) && [s[0]] + Tail(s) == s
  {
  }

  /** A forward scan of any tree from any bound yields exactly the rows at or above it (or
      strictly above it), ascending; without a bound, every row. */
  method ForwardScan(sort: Sort, t: Tree, bound: Option<RowBound>, inclusive: bool) returns (out: seq<Row>)
    requires Ok(SortLt(sort), t)
    ensures bound.None? ==> out == Contents(t)
    ensures bound.Some? ==> out == Filter(AboveP(BoundCut(sort, bound.value), inclusive), Contents(t))
  {
    hide *;
    var cut := match bound case None => None case Some(b) => Some(BoundCut(sort, b));
    if bound.Some? { BoundIsCut(sort, bound.value); }
    var c := ValuesFrom(SortLt(sort), t, cut, inclusive);
    RestIs(c.started, Pending(false, c.stack, c.leaf, c.pos));
    ScanIs(cut, inclusive, Contents(t));
    out := Collect(c);
  }

  /** A reverse scan yields exactly the rows at or below the bound (or strictly below it),
      descending. */
  method ReverseScan(sort: Sort, t: Tree, bound: Option<RowBound>, inclusive: bool) returns (out: seq<Row>)
    requires Ok(SortLt(sort), t)
    ensures bound.None? ==> out == Reversed(Contents(t))
    ensures bound.Some? ==> out == Reversed(Filter(UnderP(BoundCut(sort, bound.value), inclusive), Contents(t)))
  {
    hide *;
    var cut := match bound case None => None case Some(b) => Some(BoundCut(sort, b));
    if bound.Some? { BoundIsCut(sort, bound.value); }
    var c := ValuesFromReversed(SortLt(sort), t, cut, inclusive);
    RestIs(c.started, Pending(true, c.stack, c.leaf, c.pos));
    ScanIs(cut, inclusive, Contents(t));
    out := Collect(c);
  }
}
