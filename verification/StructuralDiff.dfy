/** The dual-cursor structural diff of rust/src/btree.rs: two descending cursors that can pause
    on an internal node, so that subtrees shared by two trees are skipped whole. */
module StructuralDiff {
  import opened Values
  import opened Order
  import opened Lists
  import opened BTree

  /** One callback of a `DiffSink`. */
  datatype Event = OnlyThis(row: Row) | OnlyOther(row: Row) | Edit(this_: Row, other: Row)

  function EventRow(e: Event): Row {
    match e
    case OnlyThis(r) => r
    case OnlyOther(r) => r
    case Edit(a, _) => a
  }

  /** What the walk should emit: a merge of the two row sequences from their large ends. */
  function Diff(lt: Lt, t: seq<Row>, o: seq<Row>): seq<Event>
    decreases |t| + |o|
  {
    if t == [] && o == [] then []
    else if o == [] then [OnlyThis(Last(t))] + Diff(lt, t[..|t| - 1], o)
    else if t == [] then [OnlyOther(Last(o))] + Diff(lt, t, o[..|o| - 1])
    else if lt(Last(o), Last(t)) then [OnlyThis(Last(t))] + Diff(lt, t[..|t| - 1], o)
    else if lt(Last(t), Last(o)) then [OnlyOther(Last(o))] + Diff(lt, t, o[..|o| - 1])
    else (if Last(t) == Last(o) then [] else [Edit(Last(t), Last(o))])
         + Diff(lt, t[..|t| - 1], o[..|o| - 1])
  }

  /** The rows strictly left of the path, level by level. */
  ghost function Lefts(spine: seq<seq<BNode>>, indices: seq<nat>, n: nat): seq<Row>
    requires n <= |spine| && n <= |indices|
    requires forall k :: 0 <= k < n ==> indices[k] < |spine[k]|
  {
    if n == 0 then [] else Lefts(spine, indices, n - 1) + FlatAll(spine[n - 1][..indices[n - 1]])
  }

  /** Levels whose index is 0 contribute nothing. */
  lemma {:induction false} LeftsZero(spine: seq<seq<BNode>>, indices: seq<nat>, k: nat, n: nat)
    requires k <= n <= |spine| && n <= |indices|
    requires forall j :: 0 <= j < n ==> indices[j] < |spine[j]|
    requires forall j :: k <= j < n ==> indices[j] == 0
    ensures Lefts(spine, indices, n) == Lefts(spine, indices, k)
  {
    if k < n {
      LeftsZero(spine, indices, k, n - 1);
      assert spine[n - 1][..0] == [];
    }
  }

  /** `Lefts` looks only at the first `n` levels. */
  lemma {:induction false} LeftsSame(s1: seq<seq<BNode>>, i1: seq<nat>, s2: seq<seq<BNode>>, i2: seq<nat>, n: nat)
    requires n <= |s1| && n <= |i1| && n <= |s2| && n <= |i2|
    requires forall j :: 0 <= j < n ==> s1[j] == s2[j] && i1[j] == i2[j] && i1[j] < |s1[j]|
    ensures Lefts(s1, i1, n) == Lefts(s2, i2, n)
  {
    if n > 0 { LeftsSame(s1, i1, s2, i2, n - 1); }
  }

  /** A cursor position as a value. */
  datatype Pos = Pos(height: nat, spine: seq<seq<BNode>>, indices: seq<nat>, leaf: Option<BNode>) {
    ghost predicate Bounds() {
      && 1 <= |spine| <= height + 1
      && |indices| == |spine| + (if leaf.Some? then 1 else 0)
      && (forall k :: 0 <= k < |spine| ==> indices[k] < |spine[k]| && Level(spine[k], height - k))
      && (leaf.Some? ==>
            && |spine| == height + 1
            && leaf.value == spine[height][indices[height]]
            && indices[height + 1] < |leaf.value.keys|)
    }

    ghost function Node(): BNode
      requires Bounds()
    {
      spine[|spine| - 1][indices[|spine| - 1]]
    }

    ghost function Left(): seq<Row>
      requires Bounds()
    {
      Lefts(spine, indices, |spine|)
    }

    /** The rows still to be walked, up to and including the cursor's position. */
    ghost function Rem(): seq<Row>
      requires Bounds()
    {
      Left() + (if leaf.Some? then leaf.value.keys[..indices[height + 1] + 1] else Flat(Node()))
    }
  }

  /** Moving to the left sibling at level `k`, all deeper indices being 0. */
  lemma {:induction false} MoveLeft(p: Pos, k: nat)
    requires p.Bounds() && k < |p.spine| && p.indices[k] > 0
    requires forall j :: k < j < |p.spine| ==> p.indices[j] == 0
    ensures var q := Sibling(p, k);
      q.Bounds() && q.Rem() == p.Left() && p.Left() != [] && q.Node().keys != [] && Last(p.Left()) == MaxKey(q.Node())
  {
    hide *;
    var q := Sibling(p, k);
    BoundsAt(p, k);
    SiblingNode(p, k);
    SiblingLeft(p, k);
    LeftIsLefts(p);
    LeftsStep(p.spine, p.indices, k);
    RemIs(q);
    LastOfConcat(q.Left(), Flat(q.Node()));
  }

  lemma BoundsAt(p: Pos, k: nat)
    requires p.Bounds() && k < |p.spine|
    ensures |p.spine| <= |p.indices| && forall j :: 0 <= j < |p.spine| ==> p.indices[j] < |p.spine[j]|
  {
  }

  lemma LeftIsLefts(p: Pos)
    requires p.Bounds()
    ensures |p.spine| <= |p.indices| && (forall j :: 0 <= j < |p.spine| ==> p.indices[j] < |p.spine[j]|)
    ensures p.Left() == Lefts(p.spine, p.indices, |p.spine|)
  {
  }

  lemma RemIs(p: Pos)
    requires p.Bounds() && p.leaf.None?
    ensures p.Rem() == p.Left() + Flat(p.Node())
  {
  }

  lemma LastOfConcat(a: seq<Row>, b: seq<Row>)
    requires b != []
    ensures a + b != [] && Last(a + b) == Last(b)
  {
  }

  /** The left sibling is a well-shaped node with rows, its maximum last. */
  lemma {:induction false} SiblingNode(p: Pos, k: nat)
    requires p.Bounds() && k < |p.spine| && p.indices[k] > 0
    ensures var q := Sibling(p, k);
      && q.Bounds() && q.leaf.None? && p.indices[k] - 1 < |p.spine[k]| && q.Node() == p.spine[k][p.indices[k] - 1]
      && q.Node().keys != [] && Flat(q.Node()) != [] && Last(Flat(q.Node())) == MaxKey(q.Node())
  {
    hide Lefts;
    hide FlatAll;
    hide Flat;
    var q := Sibling(p, k);
    assert Level(p.spine[k], p.height - k);
    ShapeFlat(q.Node(), p.height - k);
  }

  lemma {:induction false} SiblingLeft(p: Pos, k: nat)
    requires p.Bounds() && k < |p.spine| && p.indices[k] > 0
    ensures var q := Sibling(p, k);
      && q.Bounds() && k <= |p.indices| && p.indices[k] - 1 <= |p.spine[k]|
      && (forall j :: 0 <= j < k ==> p.indices[j] < |p.spine[j]|)
      && q.Left() == Lefts(p.spine, p.indices, k) + FlatAll(p.spine[k][..p.indices[k] - 1])
  {
    hide FlatAll;
    hide Flat;
    hide Shape;
    var q := Sibling(p, k);
    LeftsSame(p.spine, p.indices, q.spine, q.indices, k);
  }

  /** The rows left of the path end with the subtree of the nearest left sibling. */
  lemma {:induction false} LeftsStep(spine: seq<seq<BNode>>, indices: seq<nat>, k: nat)
    requires k < |spine| <= |indices| && (forall j :: 0 <= j < |spine| ==> indices[j] < |spine[j]|)
    requires indices[k] > 0 && forall j :: k < j < |spine| ==> indices[j] == 0
    ensures Lefts(spine, indices, |spine|)
         == Lefts(spine, indices, k) + FlatAll(spine[k][..indices[k] - 1]) + Flat(spine[k][indices[k] - 1])
  {
    hide Flat;
    var i := indices[k];
    LeftsZero(spine, indices, k + 1, |spine|);
    var row := spine[k][..i];
    FlatAllAt(row, i - 1);
    assert row[..i - 1] == spine[k][..i - 1] && row[i..] == [];
  }

  ghost function Sibling(p: Pos, k: nat): (q: Pos)
    requires p.Bounds() && k < |p.spine| && p.indices[k] > 0
    ensures q.Bounds()
  {
    Pos(p.height, p.spine[..k + 1], p.indices[..k] + [p.indices[k] - 1], None)
  }

  /** Moving to the previous row of the leaf. */
  lemma {:induction false} MoveBack(p: Pos)
    requires p.Bounds() && p.leaf.Some? && p.indices[p.height + 1] > 0
    ensures var v := p.indices[p.height + 1];
      var q := p.(indices := p.indices[..p.height + 1] + [v - 1]);
      q.Bounds() && |p.Rem()| > 1 && q.Rem() == p.Rem()[..|p.Rem()| - 1] && Last(q.Rem()) == p.leaf.value.keys[v - 1]
  {
    var v := p.indices[p.height + 1];
    var q := p.(indices := p.indices[..p.height + 1] + [v - 1]);
    LeftsSame(p.spine, p.indices, q.spine, q.indices, |p.spine|);
    var ks := p.leaf.value.keys;
    assert p.Rem() == p.Left() + ks[..v + 1] && q.Rem() == p.Left() + ks[..v];
  }

  /** Descending from a node to its last row or last child moves over no row. */
  lemma {:induction false} MoveDown(p: Pos)
    requires p.Bounds() && p.leaf.None?
    ensures Shape(p.Node(), p.height + 1 - |p.spine|)
    ensures p.Rem() != [] && Last(p.Rem()) == MaxKey(p.Node())
    ensures Down(p).Bounds() && Down(p).Rem() == p.Rem()
  {
    var (n, h) := (p.Node(), p.height + 1 - |p.spine|);
    assert Shape(n, h) by { assert Level(p.spine[|p.spine| - 1], h); }
    ShapeFlat(n, h);
    if n.Internal? { DownInternal(p, h); } else { DownLeaf(p); }
  }

  lemma NodeHasRows(p: Pos)
    requires p.Bounds() && p.leaf.None?
    ensures Flat(p.Node()) != []
  {
    MoveDown(p);
    ShapeFlat(p.Node(), p.height + 1 - |p.spine|);
  }

  lemma {:induction false} DownInternal(p: Pos, h: nat)
    requires p.Bounds() && p.leaf.None? && p.Node().Internal? && Shape(p.Node(), h) && h == p.height + 1 - |p.spine|
    ensures Down(p).Bounds() && Down(p).Rem() == p.Rem()
  {
    var (n, q) := (p.Node(), Down(p));
    var c := |n.children| - 1;
    assert q.Bounds() by { assert Level(n.children, h - 1); }
    assert q.Left() == p.Left() + FlatAll(n.children[..c]) by {
      LeftsSame(p.spine, p.indices, q.spine, q.indices, |p.spine|);
    }
    FlatAllAt(n.children, c);
    assert n.children[c + 1..] == [];
    assert q.Rem() == q.Left() + Flat(n.children[c]);
    assert p.Rem() == p.Left() + Flat(n) && Flat(n) == FlatAll(n.children);
    hide Lefts;
    hide FlatAll;
    hide Flat;
    hide Shape;
    hide Pos.Left;
    hide Pos.Rem;
  }

  lemma {:induction false} DownLeaf(p: Pos)
    requires p.Bounds() && p.leaf.None? && p.Node().Leaf? && p.Node().keys != [] && |p.spine| == p.height + 1
    ensures Down(p).Bounds() && Down(p).Rem() == p.Rem()
  {
    var (n, q) := (p.Node(), Down(p));
    LeftsSame(p.spine, p.indices, q.spine, q.indices, |p.spine|);
    assert n.keys[..|n.keys|] == n.keys;
  }

  ghost function Down(p: Pos): Pos
    requires p.Bounds() && p.leaf.None?
  {
    var n := p.Node();
    if n.Leaf? && n.keys != [] then p.(indices := p.indices + [|n.keys| - 1], leaf := Some(n))
    else if n.Internal? && n.children != [] then
      p.(spine := p.spine + [n.children], indices := p.indices + [|n.children| - 1])
    else p
  }

  lemma DownIs(p: Pos)
    requires p.Bounds() && p.leaf.None?
    ensures var level := |p.spine| - 1;
      && |p.indices| == |p.spine| == level + 1 > 0 && p.indices[level] < |p.spine[level]|
      && var n := p.spine[level][p.indices[level]];
      && n == p.Node() && n.keys != []
      && (n.Leaf? ==> Down(p) == p.(indices := p.indices + [|n.keys| - 1], leaf := Some(n)))
      && (n.Internal? ==>
            && n.children != [] && Last(n.children).keys != [] && MaxKey(Last(n.children)) == MaxKey(n)
            && Down(p) == p.(spine := p.spine + [n.children], indices := p.indices + [|n.children| - 1]))
  {
    hide Shape;
    hide Pos.Rem;
    MoveDown(p);
    ShapeMax(p.Node(), p.height + 1 - |p.spine|);
  }

  lemma ShapeMax(n: BNode, h: int)
    requires h >= 0 && Shape(n, h)
    ensures n.keys != []
    ensures n.Internal? ==> n.children != [] && Last(n.children).keys != [] && MaxKey(Last(n.children)) == MaxKey(n)
  {
  }

  lemma ValidIs(c: DiffCursor)
    ensures c.At() == Pos(c.height, c.spine, c.indices, c.leaf)
    ensures c.Valid() <==>
      c.At().Bounds() && c.rem == c.At().Rem() && c.rem != [] && c.currentKey == Last(c.rem)
  {
  }

  class DiffCursor {
    var height: nat
    var spine: seq<seq<BNode>>
    var indices: seq<nat>
    var leaf: Option<BNode>
    var currentKey: Row
    /** The rows still to be walked; the abstract state of the cursor. */
    ghost var rem: seq<Row>

    ghost function At(): Pos reads this {
      Pos(height, spine, indices, leaf)
    }

    ghost predicate Valid() reads this {
      At().Bounds() && rem == At().Rem() && rem != [] && currentKey == Last(rem)
    }

    function CurrentNode(): BNode
      reads this
      requires Valid()
    {
      spine[|spine| - 1][indices[|spine| - 1]]
    }

    constructor (root: BNode)
      requires Shape(root, Height(root))
      ensures Valid() && leaf.None? && rem == Flat(root)
    {
      height := Height(root);
      spine := [[root]];
      indices := [0];
      leaf := None;
      currentKey := MaxKey(root);
      rem := Flat(root);
      new;
      ShapeFlat(root, height);
      LeftsZero(spine, indices, 0, 1);
    }

    /** Step to the previous node: walk up to the deepest level with a left sibling. */
    method StepToNode() returns (ok: bool)
      requires Valid()
      modifies this
      ensures Valid() && height == old(height)
      ensures ok <==> old(At()).Left() != []
      ensures ok ==> leaf.None? && rem == old(At()).Left()
      ensures !ok ==> At() == old(At()) && currentKey == old(currentKey) && rem == old(rem)
    {
      hide Flat;
      hide FlatAll;
      hide Shape;
      var k := |spine|;
      while k > 0 && indices[k - 1] == 0
        invariant 0 <= k <= |spine| && forall j :: k <= j < |spine| ==> indices[j] == 0
      {
        k := k - 1;
      }
      if k == 0 {
        LeftsZero(spine, indices, 0, |spine|);
        return false;
      }
      k := k - 1;
      MoveLeft(At(), k);
      rem := At().Left();
      leaf := None;
      spine := spine[..k + 1];
      indices := indices[..k] + [indices[k] - 1];
      currentKey := MaxKey(spine[k][indices[k]]);
      return true;
    }

    /** Descend into the selected node, rightmost child or row first. */
    method StepDown()
      requires Valid() && leaf.None?
      modifies this
      ensures Valid() && height == old(height) && rem == old(rem) && |indices| == |old(indices)| + 1
    {
      hide *;
      ghost var p := At();
      ValidIs(this);
      MoveDown(p);
      DownIs(p);
      var level := |spine| - 1;
      var node := spine[level][indices[level]];
      if node.Leaf? {
        indices := indices + [|node.keys| - 1];
        leaf := Some(node);
        currentKey := MaxKey(node);
      } else {
        spine := spine + [node.children];
        indices := indices + [|node.children| - 1];
        currentKey := MaxKey(Last(node.children));
      }
      ValidIs(this);
    }

    /** Move to the previous row of the leaf. */
    method StepBack()
      requires Valid() && leaf.Some? && indices[height + 1] > 0
      modifies this
      ensures Valid() && height == old(height) && rem == old(rem)[..|old(rem)| - 1]
    {
      MoveBack(At());
      var v := indices[height + 1] - 1;
      indices := indices[..height + 1] + [v];
      currentKey := leaf.value.keys[v];
      rem := rem[..|rem| - 1];
    }

    /** `step(false)`: on a leaf row it consumes that row, on a node it descends without
        consuming anything; at the far left end it returns false and changes nothing. */
    method Step() returns (ok: bool)
      requires Valid()
      modifies this
      ensures Valid() && height == old(height) && (!ok ==> rem == old(rem))
      ensures old(leaf).None? ==> ok && rem == old(rem) && |indices| == |old(indices)| + 1
      ensures old(leaf).Some? ==> if ok then rem == Front(old(rem)) else Front(rem) == []
    {
      if leaf.None? {
        StepDown();
        ok := true;
      } else if indices[height + 1] == 0 {
        assert rem == At().Left() + [leaf.value.keys[0]];
        ok := StepToNode();
      } else {
        StepBack();
        ok := true;
      }
    }

    /** `step(true)`: consume the whole subtree of the current node. */
    method StepPast() returns (ok: bool)
      requires Valid() && leaf.None?
      modifies this
      ensures Valid() && height == old(height) && (!ok ==> rem == old(rem)) && (ok ==> leaf.None?)
      ensures old(rem) == Left(this, ok) + Flat(old(CurrentNode()))
    {
      ok := StepToNode();
    }
  }

  function CompareKeys(lt: Lt, x: Row, y: Row): Ordering {
    if lt(x, y) then Less else if lt(y, x) then Greater else Equal
  }

  /** `compare_cursors`: descending key order, ties broken by height-normalised depth. */
  function CompareCursors(lt: Lt, a: DiffCursor, b: DiffCursor): Ordering
    reads a, b
  {
    var byKey := CompareKeys(lt, b.currentKey, a.currentKey);
    if !byKey.Equal? then byKey
    else
      var least := Min(a.height, b.height);
      CompareInts(|a.indices| - (a.height - least), |b.indices| - (b.height - least))
  }

  /** `step_to_end`: every row still to be walked, largest first. */
  method StepToEnd(c: DiffCursor) returns (rows: seq<Row>)
    requires c.Valid()
    modifies c
    ensures rows == Reversed(old(c.rem))
  {
    hide Flat;
    hide FlatAll;
    hide Lefts;
    hide Shape;
    rows := [];
    while true
      invariant c.Valid() && Reversed(old(c.rem)) == rows + Reversed(c.rem)
      decreases |c.rem|, c.height + 2 - |c.indices|
    {
      ghost var rem := c.rem;
      if c.leaf.Some? {
        rows := rows + [c.currentKey];
      }
      var ok := c.Step();
      if !ok {
        assert rem[..|rem| - 1] == [];
        break;
      }
    }
  }

  lemma {:induction false} DiffDrain(lt: Lt, s: seq<Row>)
    ensures |Diff(lt, s, [])| == |s| && forall i :: 0 <= i < |s| ==> Diff(lt, s, [])[i] == OnlyThis(s[|s| - 1 - i])
    ensures |Diff(lt, [], s)| == |s| && forall i :: 0 <= i < |s| ==> Diff(lt, [], s)[i] == OnlyOther(s[|s| - 1 - i])
  {
    if s != [] {
      DiffDrain(lt, s[..|s| - 1]);
      assert Diff(lt, s, []) == [OnlyThis(Last(s))] + Diff(lt, s[..|s| - 1], []);
      assert Diff(lt, [], s) == [OnlyOther(Last(s))] + Diff(lt, [], s[..|s| - 1]);
      hide Diff;
    }
  }

  lemma {:induction false} ReversedAt(s: seq<Row>)
    ensures |Reversed(s)| == |s| && forall i :: 0 <= i < |s| ==> Reversed(s)[i] == s[|s| - 1 - i]
  {
    if s != [] { ReversedAt(s[..|s| - 1]); }
  }

  /** Rows that the two trees share at the large end contribute no event. */
  lemma {:induction false} DiffSharedSuffix(lt: Lt, t: seq<Row>, o: seq<Row>, shared: seq<Row>)
    requires StrictWeak(lt)
    ensures Diff(lt, t + shared, o + shared) == Diff(lt, t, o)
  {
    AllLaws(lt);
    if shared == [] {
      assert t + shared == t && o + shared == o;
    } else {
      var front := shared[..|shared| - 1];
      assert (t + shared)[..|t + shared| - 1] == t + front;
      assert (o + shared)[..|o + shared| - 1] == o + front;
      DiffSharedSuffix(lt, t, o, front);
    }
  }

  /** The rows a cursor has left; none once it has run off its end. */
  ghost function Left(c: DiffCursor, running: bool): seq<Row>
    reads c
  {
    if running then c.rem else []
  }

  function Front(s: seq<Row>): seq<Row>
    requires s != []
  {
    s[..|s| - 1]
  }

  /** Same key on both sides: an edit exactly when the contents differ.  The pointer test is
      any boolean that implies equal contents. */
  method CompareContent(a: Row, b: Row, useIdentity: bool) returns (out: seq<Event>)
    ensures out == if a == b then [] else [Edit(a, b)]
  {
    var identical: bool := *;
    if useIdentity && identical && a == b {
      return [];
    }
    FullRowEqualIsEquality(a, b);
    return if FullRowEqual(a, b) then [] else [Edit(a, b)];
  }

  /** Both cursors on leaf rows with the same key: consume one row on each side. */
  method PairRows(tc: DiffCursor, oc: DiffCursor, useIdentity: bool) returns (out: seq<Event>, tok: bool, ook: bool)
    requires tc != oc && tc.Valid() && oc.Valid() && tc.leaf.Some? && oc.leaf.Some?
    modifies tc, oc
    ensures tc.Valid() && oc.Valid()
    ensures Left(tc, tok) == Front(old(tc.rem)) && Left(oc, ook) == Front(old(oc.rem))
    ensures (!tok ==> tc.rem == old(tc.rem)) && (!ook ==> oc.rem == old(oc.rem))
    ensures out == if Last(old(tc.rem)) == Last(old(oc.rem)) then [] else [Edit(Last(old(tc.rem)), Last(old(oc.rem)))]
  {
    out := CompareContent(tc.currentKey, oc.currentKey, useIdentity);
    tok := tc.Step();
    ook := oc.Step();
  }

  /** Both cursors on the same node: skip the whole subtree. */
  method SkipShared(tc: DiffCursor, oc: DiffCursor) returns (tok: bool, ook: bool, ghost shared: seq<Row>)
    requires tc != oc && tc.Valid() && oc.Valid() && tc.leaf.None? && oc.leaf.None?
    requires tc.CurrentNode() == oc.CurrentNode()
    modifies tc, oc
    ensures tc.Valid() && oc.Valid() && shared != []
    ensures old(tc.rem) == Left(tc, tok) + shared && old(oc.rem) == Left(oc, ook) + shared
    ensures (!tok ==> tc.rem == old(tc.rem)) && (!ook ==> oc.rem == old(oc.rem))
    ensures tok && ook ==> tc.leaf.None? && oc.leaf.None?
  {
    hide *;
    shared := Flat(tc.CurrentNode());
    CursorHasRows(tc);
    tok := tc.StepPast();
    ook := oc.StepPast();
  }

  lemma CursorHasRows(c: DiffCursor)
    requires c.Valid() && c.leaf.None?
    ensures Flat(c.CurrentNode()) != []
  {
    NodeHasRows(c.At());
  }

  /** Advance one cursor, handing back the leaf row it leaves behind, if any. */
  method Advance(c: DiffCursor) returns (passed: seq<Row>, ok: bool)
    requires c.Valid()
    modifies c
    ensures c.Valid() && c.height == old(c.height) && (!ok ==> c.rem == old(c.rem))
    ensures old(c.leaf).Some? ==> passed == [Last(old(c.rem))] && Left(c, ok) == Front(old(c.rem))
    ensures old(c.leaf).None? ==> passed == [] && ok && c.rem == old(c.rem) && |c.indices| == old(|c.indices|) + 1
  {
    passed := if c.leaf.Some? then [c.currentKey] else [];
    ok := c.Step();
  }

  // ---- the walk on row sequences ----

  /** When one side is exhausted, what the other has left lies strictly below its last row. */
  ghost predicate Below(lt: Lt, s: seq<Row>, bound: Row) {
    s != [] ==> lt(Last(s), bound)
  }

  lemma {:induction false} PairStep(lt: Lt, t: seq<Row>, o: seq<Row>)
    requires StrictWeak(lt) && Sorted(lt, t) && Sorted(lt, o) && t != [] && o != [] && SameKey(lt, Last(t), Last(o))
    ensures Sorted(lt, Front(t)) && Sorted(lt, Front(o))
    ensures Below(lt, Front(t), Last(o)) && Below(lt, Front(o), Last(t))
    ensures Diff(lt, t, o) == (if Last(t) == Last(o) then [] else [Edit(Last(t), Last(o))])
      + Diff(lt, Front(t), Front(o))
  {
    if |t| > 1 { Laws(lt, Last(Front(t)), Last(o), Last(t)); }
    if |o| > 1 { Laws(lt, Last(Front(o)), Last(t), Last(o)); }
  }

  lemma {:induction false} SkipStep(lt: Lt, t: seq<Row>, shared: seq<Row>)
    requires Sorted(lt, t + shared) && shared != []
    ensures Sorted(lt, t) && Below(lt, t, Last(t + shared)) && Last(t + shared) == Last(shared)
  {
    var s := t + shared;
    assert forall i :: 0 <= i < |t| ==> t[i] == s[i];
  }

  lemma {:induction false} BehindStep(lt: Lt, t: seq<Row>, o: seq<Row>)
    requires StrictWeak(lt) && t != [] && o != []
    ensures lt(Last(o), Last(t)) ==> Diff(lt, t, o) == [OnlyThis(Last(t))] + Diff(lt, Front(t), o)
    ensures lt(Last(t), Last(o)) ==> Diff(lt, t, o) == [OnlyOther(Last(o))] + Diff(lt, t, Front(o))
  {
    Laws(lt, Last(t), Last(o), Last(t));
  }

  ghost predicate Walking(lt: Lt, tc: DiffCursor, oc: DiffCursor)
    reads tc, oc
  {
    && StrictWeak(lt) && tc != oc && tc.Valid() && oc.Valid()
    && Sorted(lt, tc.rem) && Sorted(lt, oc.rem)
  }

  /** When one cursor has run off its end, the other is strictly past it: `finish_walk` always
      starts in its third case. */
  ghost predicate NotEarly(lt: Lt, tc: DiffCursor, oc: DiffCursor, tok: bool, ook: bool)
    reads tc, oc
  {
    && (tok && !ook ==> lt(tc.currentKey, oc.currentKey))
    && (ook && !tok ==> lt(oc.currentKey, tc.currentKey))
  }

  /** The `prev` gate never suppresses an event. */
  ghost predicate GateOpen(lt: Lt, tc: DiffCursor, oc: DiffCursor, prev: Ordering)
    reads tc, oc
  {
    prev.Equal? ==>
      && !(CompareCursors(lt, tc, oc).Less? && tc.leaf.Some?)
      && !(CompareCursors(lt, tc, oc).Greater? && oc.leaf.Some?)
  }

  /** What the order of two valid cursors says: a leaf row is behind only by its key, and a tie
      is between two leaf rows or two nodes. */
  lemma OrderMeaning(lt: Lt, tc: DiffCursor, oc: DiffCursor)
    requires StrictWeak(lt) && tc.Valid() && oc.Valid()
    ensures CompareCursors(lt, tc, oc).Less? && tc.leaf.Some? ==> lt(oc.currentKey, tc.currentKey)
    ensures CompareCursors(lt, tc, oc).Greater? && oc.leaf.Some? ==> lt(tc.currentKey, oc.currentKey)
    ensures CompareCursors(lt, tc, oc).Equal? ==>
      SameKey(lt, tc.currentKey, oc.currentKey) && tc.leaf.Some? == oc.leaf.Some?
  {
  }

  ghost function Slack(c: DiffCursor): int
    reads c
  {
    c.height + 2 - |c.indices|
  }

  /** Both cursors on leaf rows with the same key. */
  method PairTurn(lt: Lt, tc: DiffCursor, oc: DiffCursor, useIdentity: bool)
    returns (evs: seq<Event>, tok: bool, ook: bool)
    requires Walking(lt, tc, oc) && SameKey(lt, tc.currentKey, oc.currentKey) && tc.leaf.Some? && oc.leaf.Some?
    modifies tc, oc
    ensures Walking(lt, tc, oc) && NotEarly(lt, tc, oc, tok, ook)
    ensures Diff(lt, old(tc.rem), old(oc.rem)) == evs + Diff(lt, Left(tc, tok), Left(oc, ook))
    ensures |Left(tc, tok)| + |Left(oc, ook)| < |old(tc.rem)| + |old(oc.rem)|
  {
    PairStep(lt, tc.rem, oc.rem);
    evs, tok, ook := PairRows(tc, oc, useIdentity);
  }

  /** Both cursors on the same node by reference. */
  method SkipTurn(lt: Lt, tc: DiffCursor, oc: DiffCursor) returns (tok: bool, ook: bool)
    requires Walking(lt, tc, oc) && SameKey(lt, tc.currentKey, oc.currentKey) && tc.leaf.None? && oc.leaf.None?
    requires tc.CurrentNode() == oc.CurrentNode()
    modifies tc, oc
    ensures Walking(lt, tc, oc) && NotEarly(lt, tc, oc, tok, ook) && (tok && ook ==> tc.leaf.None? && oc.leaf.None?)
    ensures Diff(lt, old(tc.rem), old(oc.rem)) == Diff(lt, Left(tc, tok), Left(oc, ook))
    ensures |Left(tc, tok)| + |Left(oc, ook)| < |old(tc.rem)| + |old(oc.rem)|
  {
    ghost var shared;
    tok, ook, shared := SkipShared(tc, oc);
    SkipStep(lt, Left(tc, tok), shared);
    SkipStep(lt, Left(oc, ook), shared);
    DiffSharedSuffix(lt, Left(tc, tok), Left(oc, ook), shared);
  }

  /** `self` is behind and moves on; a leaf row it leaves is missing from `other`. */
  method AdvanceThis(lt: Lt, tc: DiffCursor, oc: DiffCursor) returns (evs: seq<Event>, tok: bool)
    requires Walking(lt, tc, oc) && CompareCursors(lt, tc, oc).Less?
    modifies tc
    ensures Walking(lt, tc, oc) && NotEarly(lt, tc, oc, tok, true)
    ensures Diff(lt, old(tc.rem), oc.rem) == evs + Diff(lt, Left(tc, tok), oc.rem) && (old(tc.leaf).None? ==> evs == [])
    ensures |Left(tc, tok)| < |old(tc.rem)| || (tok && tc.rem == old(tc.rem) && Slack(tc) < old(Slack(tc)))
  {
    hide Flat;
    hide FlatAll;
    hide Lefts;
    hide Shape;
    hide Diff;
    hide Pos.Rem;
    hide Pos.Bounds;
    OrderMeaning(lt, tc, oc);
    BehindStep(lt, tc.rem, oc.rem);
    var passed;
    passed, tok := Advance(tc);
    evs := if passed == [] then [] else [OnlyThis(passed[0])];
  }

  /** `other` is behind (or level on a node) and moves on. */
  method AdvanceOther(lt: Lt, tc: DiffCursor, oc: DiffCursor) returns (evs: seq<Event>, ook: bool)
    requires Walking(lt, tc, oc) && !CompareCursors(lt, tc, oc).Less?
    requires CompareCursors(lt, tc, oc).Equal? ==> tc.leaf.None? && oc.leaf.None?
    modifies oc
    ensures Walking(lt, tc, oc) && NotEarly(lt, tc, oc, true, ook)
    ensures Diff(lt, tc.rem, old(oc.rem)) == evs + Diff(lt, tc.rem, Left(oc, ook)) && (old(oc.leaf).None? ==> evs == [])
    ensures |Left(oc, ook)| < |old(oc.rem)| || (ook && oc.rem == old(oc.rem) && Slack(oc) < old(Slack(oc)))
    ensures old(CompareCursors(lt, tc, oc)).Equal? && ook ==> CompareCursors(lt, tc, oc).Less? && tc.leaf.None?
  {
    hide Flat;
    hide FlatAll;
    hide Lefts;
    hide Shape;
    hide Diff;
    hide Pos.Rem;
    hide Pos.Bounds;
    OrderMeaning(lt, tc, oc);
    BehindStep(lt, tc.rem, oc.rem);
    var passed;
    passed, ook := Advance(oc);
    evs := if passed == [] then [] else [OnlyOther(passed[0])];
  }

  /** One turn of the loop of `diff_visit` with both cursors running: the events it emits
      account exactly for the rows it consumes. */
  method Turn(lt: Lt, tc: DiffCursor, oc: DiffCursor, prev: Ordering, useIdentity: bool)
    returns (evs: seq<Event>, next: Ordering, tok: bool, ook: bool)
    requires Running(lt, tc, oc, true, true, prev)
    modifies tc, oc
    ensures Running(lt, tc, oc, tok, ook, next)
    ensures Diff(lt, old(tc.rem), old(oc.rem)) == evs + Diff(lt, Left(tc, tok), Left(oc, ook))
    ensures |Left(tc, tok)| + |Left(oc, ook)| < |old(tc.rem)| + |old(oc.rem)| ||
            (tok && ook && tc.rem == old(tc.rem) && oc.rem == old(oc.rem)
              && Slack(tc) + Slack(oc) < old(Slack(tc) + Slack(oc)))
  {
    hide Flat;
    hide FlatAll;
    hide Lefts;
    hide Shape;
    hide Diff;
    hide Pos.Rem;
    var order := CompareCursors(lt, tc, oc);
    OrderMeaning(lt, tc, oc);
    if order.Equal? && tc.leaf.Some? && oc.leaf.Some? {
      next := Less;
      evs, tok, ook := PairTurn(lt, tc, oc, useIdentity);
      return;
    }
    if order.Equal? && useIdentity {
      var identical: bool := *;
      if identical && tc.CurrentNode() == oc.CurrentNode() {
        next, evs := Equal, [];
        tok, ook := SkipTurn(lt, tc, oc);
        return;
      }
    }
    next := order;
    tok, ook := true, true;
    if order.Less? {
      evs, tok := AdvanceThis(lt, tc, oc);
    } else {
      evs, ook := AdvanceOther(lt, tc, oc);
    }
    // the gate of the source: emit only when the previous order was not a tie
    if prev.Equal? { evs := []; }
  }

  method DrainThis(lt: Lt, c: DiffCursor) returns (evs: seq<Event>)
    requires c.Valid()
    modifies c
    ensures evs == Diff(lt, old(c.rem), [])
  {
    hide Diff;
    DiffDrain(lt, c.rem);
    ReversedAt(c.rem);
    hide Reversed;
    var rows := StepToEnd(c);
    evs := seq(|rows|, i requires 0 <= i < |rows| => OnlyThis(rows[i]));
  }

  method DrainOther(lt: Lt, c: DiffCursor) returns (evs: seq<Event>)
    requires c.Valid()
    modifies c
    ensures evs == Diff(lt, [], old(c.rem))
  {
    hide Diff;
    DiffDrain(lt, c.rem);
    ReversedAt(c.rem);
    hide Reversed;
    var rows := StepToEnd(c);
    evs := seq(|rows|, i requires 0 <= i < |rows| => OnlyOther(rows[i]));
  }

  /** `finish_walk` on whichever cursor is still running.  The walk never ends early: the
      cursor order is always the third case of the source, so nothing is skipped. */
  method FinishWalk(lt: Lt, tc: DiffCursor, oc: DiffCursor, tok: bool, ook: bool) returns (evs: seq<Event>)
    requires Walking(lt, tc, oc) && NotEarly(lt, tc, oc, tok, ook) && !(tok && ook)
    modifies tc, oc
    ensures evs == Diff(lt, old(Left(tc, tok)), old(Left(oc, ook)))
  {
    Laws(lt, tc.currentKey, oc.currentKey, tc.currentKey);
    evs := [];
    if tok {
      assert CompareCursors(lt, tc, oc).Greater?;
      evs := DrainThis(lt, tc);
    } else if ook {
      assert CompareCursors(lt, oc, tc).Greater?;
      evs := DrainOther(lt, oc);
    }
  }

  ghost predicate Running(lt: Lt, tc: DiffCursor, oc: DiffCursor, tok: bool, ook: bool, prev: Ordering)
    reads tc, oc
  {
    Walking(lt, tc, oc) && NotEarly(lt, tc, oc, tok, ook) && (tok && ook ==> GateOpen(lt, tc, oc, prev))
  }

  /** The loop of `diff_visit` over two non-empty trees. */
  method DualWalk(lt: Lt, tc: DiffCursor, oc: DiffCursor, useIdentity: bool) returns (out: seq<Event>)
    requires Walking(lt, tc, oc) && tc.leaf.None? && oc.leaf.None?
    modifies tc, oc
    ensures out == Diff(lt, old(tc.rem), old(oc.rem))
  {
    hide *;
    out := [];
    var tok, ook := true, true;
    WalkStarts(lt, tc, oc);
    LeftIs(tc, true);
    LeftIs(oc, true);
    var prev := CompareCursors(lt, tc, oc);
    ghost var total := Diff(lt, tc.rem, oc.rem);
    ghost var rest := total;
    while tok && ook
      invariant Running(lt, tc, oc, tok, ook, prev)
      invariant rest == Diff(lt, Left(tc, tok), Left(oc, ook))
      invariant total == out + rest
      decreases |Left(tc, tok)| + |Left(oc, ook)|, Slack(tc) + Slack(oc)
    {
      var evs;
      LeftIs(tc, true);
      LeftIs(oc, true);
      SlackBound(lt, tc, oc, prev);
      evs, prev, tok, ook := Turn(lt, tc, oc, prev, useIdentity);
      LeftIs(tc, tok);
      LeftIs(oc, ook);
      ghost var rest' := Diff(lt, Left(tc, tok), Left(oc, ook));
      assert out + (evs + rest') == (out + evs) + rest';
      out, rest := out + evs, rest';
    }
    StillWalking(lt, tc, oc, tok, ook, prev);
    var evs := FinishWalk(lt, tc, oc, tok, ook);
    out := out + evs;
  }

  lemma WalkStarts(lt: Lt, tc: DiffCursor, oc: DiffCursor)
    requires Walking(lt, tc, oc) && tc.leaf.None? && oc.leaf.None?
    ensures tc.Valid() && oc.Valid() && Running(lt, tc, oc, true, true, CompareCursors(lt, tc, oc))
  {
  }

  lemma LeftIs(c: DiffCursor, running: bool)
    ensures Left(c, running) == if running then c.rem else []
  {
  }

  lemma SlackBound(lt: Lt, tc: DiffCursor, oc: DiffCursor, prev: Ordering)
    requires Running(lt, tc, oc, true, true, prev)
    ensures Slack(tc) >= 0 && Slack(oc) >= 0
  {
  }

  lemma StillWalking(lt: Lt, tc: DiffCursor, oc: DiffCursor, tok: bool, ook: bool, prev: Ordering)
    requires Running(lt, tc, oc, tok, ook, prev)
    ensures Walking(lt, tc, oc) && NotEarly(lt, tc, oc, tok, ook)
  {
  }

  /** `diff_visit`: for two valid trees of any heights, and however the pointer-identity tests
      come out (`*`, as long as identical pointers mean equal contents), the walk terminates
      and its events are exactly the merge difference of the two row sequences. */
  method DiffVisit(lt: Lt, this_: Tree, other: Tree, useIdentity: bool) returns (out: seq<Event>)
    requires StrictWeak(lt) && Ok(lt, this_) && Ok(lt, other)
    ensures out == Diff(lt, Contents(this_), Contents(other))
  {
    if this_.size == 0 && other.size == 0 {
      out := [];
    } else if this_.size == 0 {
      var c := new DiffCursor(other.root);
      out := DrainOther(lt, c);
    } else if other.size == 0 {
      var c := new DiffCursor(this_.root);
      out := DrainThis(lt, c);
    } else {
      var tc := new DiffCursor(this_.root);
      var oc := new DiffCursor(other.root);
      out := DualWalk(lt, tc, oc, useIdentity);
    }
  }

  // ---- what the events are, without the walk ----

  ghost predicate Present(lt: Lt, s: seq<Row>, r: Row) {
    exists x :: x in s && SameKey(lt, x, r)
  }

  /** The difference of two keyed row sets, stated by membership alone. */
  ghost predicate Differs(lt: Lt, t: seq<Row>, o: seq<Row>, e: Event) {
    match e
    case OnlyThis(r) => r in t && !Present(lt, o, r)
    case OnlyOther(r) => r in o && !Present(lt, t, r)
    case Edit(a, b) => a in t && b in o && SameKey(lt, a, b) && a != b
  }

  ghost predicate Descending(lt: Lt, d: seq<Event>) {
    forall i, j :: 0 <= i < j < |d| ==> lt(EventRow(d[j]), EventRow(d[i]))
  }

  /** A row above everything on the other side is one difference, and the rest is unchanged. */
  lemma {:induction false} TopRow(lt: Lt, t: seq<Row>, o: seq<Row>, e: Event)
    requires StrictWeak(lt) && Sorted(lt, t) && Sorted(lt, o) && t != [] && (o == [] || lt(Last(o), Last(t)))
    ensures Differs(lt, t, o, e) <==> e == OnlyThis(Last(t)) || Differs(lt, Front(t), o, e)
    ensures Differs(lt, o, t, e) <==> e == OnlyOther(Last(t)) || Differs(lt, o, Front(t), e)
  {
    AllLaws(lt);
    assert forall x :: x in t <==> x == Last(t) || x in Front(t);
    assert forall x :: x in o ==> lt(x, Last(t));
    assert forall x :: x in Front(t) ==> lt(x, Last(t));
    forall r | r in o ensures Present(lt, t, r) <==> Present(lt, Front(t), r) {
      if Present(lt, t, r) {
        var x :| x in t && SameKey(lt, x, r);
        assert x in Front(t);
      }
    }
  }

  lemma {:induction false} TopPair(lt: Lt, t: seq<Row>, o: seq<Row>, e: Event)
    requires StrictWeak(lt) && Sorted(lt, t) && Sorted(lt, o) && t != [] && o != [] && SameKey(lt, Last(t), Last(o))
    ensures Differs(lt, t, o, e) <==>
      (e == Edit(Last(t), Last(o)) && Last(t) != Last(o)) || Differs(lt, Front(t), Front(o), e)
  {
    AllLaws(lt);
    assert forall x :: x in t <==> x == Last(t) || x in Front(t);
    assert forall x :: x in o <==> x == Last(o) || x in Front(o);
    assert forall x :: x in Front(t) ==> lt(x, Last(t)) && lt(x, Last(o));
    assert forall x :: x in Front(o) ==> lt(x, Last(o)) && lt(x, Last(t));
    forall r | r in Front(t) ensures Present(lt, o, r) <==> Present(lt, Front(o), r) {}
    forall r | r in Front(o) ensures Present(lt, t, r) <==> Present(lt, Front(t), r) {}
  }

  ghost predicate AllBelow(lt: Lt, d: seq<Event>, top: Row) {
    forall e :: e in d ==> lt(EventRow(e), top)
  }

  lemma {:induction false} Topped(lt: Lt, first: Event, d: seq<Event>)
    requires Descending(lt, d) && AllBelow(lt, d, EventRow(first))
    ensures Descending(lt, [first] + d)
  {
  }

  lemma {:induction false} FrontSorted(lt: Lt, s: seq<Row>)
    requires Sorted(lt, s) && s != []
    ensures Sorted(lt, Front(s)) && forall x :: x in Front(s) ==> lt(x, Last(s))
  {
  }

  /** For strictly sorted inputs, the emitted events are exactly the row differences (rows of
      one side only, and rows with the same key and different content), each key at most once,
      in strictly descending key order. */
  lemma {:induction false} DiffExact(lt: Lt, t: seq<Row>, o: seq<Row>)
    requires StrictWeak(lt) && Sorted(lt, t) && Sorted(lt, o)
    ensures forall e :: e in Diff(lt, t, o) <==> Differs(lt, t, o, e)
    ensures Descending(lt, Diff(lt, t, o))
    decreases |t| + |o|
  {
    if t == [] && o == [] {
      return;
    }
    if t != [] && (o == [] || lt(Last(o), Last(t))) {
      FrontSorted(lt, t);
      DiffExact(lt, Front(t), o);
      forall e ensures e in Diff(lt, t, o) <==> Differs(lt, t, o, e) { TopRow(lt, t, o, e); }
      EventsBelow(lt, Front(t), o, Last(t));
      Topped(lt, OnlyThis(Last(t)), Diff(lt, Front(t), o));
    } else if t == [] || lt(Last(t), Last(o)) {
      FrontSorted(lt, o);
      DiffExact(lt, t, Front(o));
      forall e ensures e in Diff(lt, t, o) <==> Differs(lt, t, o, e) { TopRow(lt, o, t, e); }
      EventsBelow(lt, t, Front(o), Last(o));
      Topped(lt, OnlyOther(Last(o)), Diff(lt, t, Front(o)));
    } else {
      PairStep(lt, t, o);
      DiffExact(lt, Front(t), Front(o));
      forall e ensures e in Diff(lt, t, o) <==> Differs(lt, t, o, e) { TopPair(lt, t, o, e); }
      EventsBelow(lt, Front(t), Front(o), Last(t));
      if Last(t) != Last(o) { Topped(lt, Edit(Last(t), Last(o)), Diff(lt, Front(t), Front(o))); }
    }
  }

  /** Every event's row comes from one of the inputs, so it lies below any bound on both. */
  lemma {:induction false} EventsBelow(lt: Lt, t: seq<Row>, o: seq<Row>, top: Row)
    requires StrictWeak(lt) && Sorted(lt, t) && Sorted(lt, o) && Below(lt, t, top) && Below(lt, o, top)
    requires forall e :: e in Diff(lt, t, o) <==> Differs(lt, t, o, e)
    ensures AllBelow(lt, Diff(lt, t, o), top)
  {
    hide Diff;
    AllLaws(lt);
  }
}
