/** The value-level B+tree of rust/src/btree.rs: nodes as values, with every split, merge,
    cached maximum and root collapse of the source.  `CowStore` runs the same algorithm in
    place on a reference-counted heap and refines these functions. */
module BTree {
  import opened Values
  import opened Order

  const MAX_NODE_SIZE: nat := 64

  datatype BNode =
    | Leaf(keys: seq<Row>)
    | Internal(keys: seq<Row>, children: seq<BNode>)

  /** The rows below a node, in order: what the node means. */
  function Flat(n: BNode): seq<Row>
    decreases n, 1
  {
    match n
    case Leaf(keys) => keys
    case Internal(_, children) => FlatAll(children)
  }

  function FlatAll(ns: seq<BNode>): seq<Row>
    decreases ns, 0
  {
    if ns == [] then [] else Flat(ns[0]) + FlatAll(ns[1..])
  }

  function Last<T>(s: seq<T>): T
    requires s != []
  {
    s[|s| - 1]
  }

  function MaxKey(n: BNode): Row
    requires n.keys != []
  {
    Last(n.keys)
  }

  predicate IsEmptyNode(n: BNode) {
    match n
    case Leaf(keys) => keys == []
    case Internal(_, children) => children == []
  }

  function Height(n: BNode): nat {
    match n
    case Leaf(_) => 0
    case Internal(_, children) => if children == [] then 1 else 1 + Height(children[0])
  }

  /** The structure `check_invariants` asks of a non-root node: every leaf at depth `h`, one
      cached maximum per child (the child's own maximum row, payload included), no empty
      node, occupancy at most MAX_NODE_SIZE. */
  ghost predicate Shape(n: BNode, h: nat)
    decreases h
  {
    && 1 <= |n.keys| <= MAX_NODE_SIZE
    && (n.Leaf? <==> h == 0)
    && (n.Internal? ==>
          && |n.keys| == |n.children|
          && forall i :: 0 <= i < |n.children| ==>
               Shape(n.children[i], h - 1) && n.keys[i] == MaxKey(n.children[i]))
  }

  /** Children of height `h` with their cached maxima. */
  ghost predicate Kids(keys: seq<Row>, children: seq<BNode>, h: nat) {
    && |keys| == |children|
    && forall i :: 0 <= i < |children| ==> Shape(children[i], h) && keys[i] == MaxKey(children[i])
  }

  /** A root may also be the empty leaf. */
  ghost predicate RootShape(n: BNode, h: nat) {
    Shape(n, h) || (h == 0 && n == Leaf([]))
  }

  datatype Tree = Tree(root: BNode, size: int)

  function Contents(t: Tree): seq<Row> {
    Flat(t.root)
  }

  /** The invariant of a tree: `check_invariants` together with global strict order. */
  ghost predicate Ok(lt: Lt, t: Tree) {
    RootShape(t.root, Height(t.root)) && Sorted(lt, Flat(t.root)) && t.size == |Flat(t.root)|
  }

  // ---- facts about the flattened view ----

  lemma FlatAllCons(n: BNode, ns: seq<BNode>)
    ensures FlatAll([n] + ns) == Flat(n) + FlatAll(ns)
  {
    assert ([n] + ns)[1..] == ns;
  }

  lemma {:induction false} FlatAllConcat(a: seq<BNode>, b: seq<BNode>)
    ensures FlatAll(a + b) == FlatAll(a) + FlatAll(b)
  {
    hide *;
    if a == [] {
      FlatNone();
      assert a + b == b && [] + FlatAll(b) == FlatAll(b);
    } else {
      FlatAllConcat(a[1..], b);
      assert a + b == [a[0]] + (a[1..] + b);
      FlatAllCons(a[0], a[1..] + b);
      FlatAllCons(a[0], a[1..]);
      assert a == [a[0]] + a[1..];
    }
  }

  lemma {:induction false} FlatAllOne(n: BNode)
    ensures FlatAll([n]) == Flat(n)
  {
    assert [n][1..] == [];
  }

  /** Splitting the child list at `i` splits the rows. */
  lemma {:induction false} FlatAllAt(ns: seq<BNode>, i: nat)
    requires i < |ns|
    ensures FlatAll(ns) == FlatAll(ns[..i]) + Flat(ns[i]) + FlatAll(ns[i + 1..])
  {
    hide Flat;
    FlatAllConcat(ns[..i], [ns[i]] + ns[i + 1..]);
    FlatAllConcat([ns[i]], ns[i + 1..]);
    FlatAllOne(ns[i]);
    assert ns == ns[..i] + ([ns[i]] + ns[i + 1..]);
  }

  /** The cached maximum really is the last row of the subtree. */
  lemma {:induction false} ShapeFlat(n: BNode, h: nat)
    requires Shape(n, h)
    ensures Flat(n) != [] && Last(Flat(n)) == MaxKey(n)
    ensures Height(n) == h
    decreases h, 0
  {
    if n.Internal? {
      KidsLast(n.keys, n.children, h - 1);
      ShapeFlat(n.children[0], h - 1);
    }
  }

  lemma {:induction false} KidsLast(keys: seq<Row>, children: seq<BNode>, h: nat)
    requires Kids(keys, children, h) && children != []
    ensures FlatAll(children) != [] && Last(FlatAll(children)) == Last(keys)
    decreases h, 1
  {
    var k := |children| - 1;
    ShapeFlat(children[k], h);
    FlatAllAt(children, k);
    assert children[k + 1..] == [];
  }

  // ---- insertion ----

  datatype Outcome = Existed | Inserted | Split(right: BNode)

  /** The first child whose cached maximum is not below `key`, else the last. */
  function ChildIndex(lt: Lt, keys: seq<Row>, key: Row): nat
    requires keys != []
  {
    var i := LowerBound(lt, keys, key);
    if i == |keys| then |keys| - 1 else i
  }

  /** Put the updated child back at `i`, refresh its cached maximum, and graft and split if
      the child split: the internal arm of `node_set`. */
  function Graft(n: BNode, i: nat, child: BNode, outcome: Outcome): (BNode, Outcome)
    requires n.Internal? && |n.keys| == |n.children| && i < |n.children| && child.keys != []
    requires outcome.Split? ==> outcome.right.keys != []
  {
    match outcome
    case Existed => (Internal(n.keys[i := MaxKey(child)], n.children[i := child]), Existed)
    case Inserted => (Internal(n.keys[i := MaxKey(child)], n.children[i := child]), Inserted)
    case Split(right) =>
      Halve(Splice(n.keys, i, [MaxKey(child), MaxKey(right)]), Splice(n.children, i, [child, right]))
  }

  /** `s` with its `i`-th element replaced by the elements of `mid`. */
  function Splice<T>(s: seq<T>, i: nat, mid: seq<T>): (r: seq<T>)
    requires i < |s|
    ensures |r| == |s| - 1 + |mid|
  {
    s[..i] + mid + s[i + 1..]
  }

  lemma GraftSplits(n: BNode, i: nat, child: BNode, right: BNode)
    requires n.Internal? && |n.keys| == |n.children| && i < |n.children| && child.keys != [] && right.keys != []
    ensures Graft(n, i, child, Split(right))
         == Halve(Splice(n.keys, i, [MaxKey(child), MaxKey(right)]), Splice(n.children, i, [child, right]))
  {
  }

  /** Split an internal node that overflowed. */
  function Halve(keys: seq<Row>, children: seq<BNode>): (BNode, Outcome)
    requires |keys| == |children|
  {
    if |children| > MAX_NODE_SIZE then
      var mid := |children| / 2;
      (Internal(keys[..mid], children[..mid]), Split(Internal(keys[mid..], children[mid..])))
    else (Internal(keys, children), Inserted)
  }

  /** The leaf arm of `node_set`. */
  function LeafSet(lt: Lt, keys: seq<Row>, key: Row): (BNode, Outcome) {
    var i := LowerBound(lt, keys, key);
    if Hit(lt, keys, key) then (Leaf(keys[i := key]), Existed)
    else
      var ks := keys[..i] + [key] + keys[i..];
      if |ks| > MAX_NODE_SIZE then
        var mid := |ks| / 2;
        (Leaf(ks[..mid]), Split(Leaf(ks[mid..])))
      else (Leaf(ks), Inserted)
  }

  /** A leaf splits exactly when it holds 64 rows and the key is new: into 32 and 33. */
  lemma LeafSplits(lt: Lt, keys: seq<Row>, key: Row)
    requires |keys| <= 64
    ensures var (n, o) := LeafSet(lt, keys, key);
      && (Hit(lt, keys, key) <==> o.Existed?) && (o.Existed? ==> |n.keys| == |keys|)
      && (o.Split? <==> !Hit(lt, keys, key) && |keys| == 64)
      && (o.Inserted? ==> |n.keys| == |keys| + 1)
      && (o.Split? ==> |n.keys| == 32 && |o.right.keys| == 33)
  {
  }

  /** So does an internal node at its 65th child. */
  lemma InternalSplits(keys: seq<Row>, children: seq<BNode>)
    requires |keys| == |children| <= 65
    ensures var (n, o) := Halve(keys, children);
      && (o.Split? <==> |children| == 65) && (!o.Split? ==> n == Internal(keys, children))
      && (o.Split? ==> |n.keys| == 32 && |o.right.keys| == 33 && n.keys + o.right.keys == keys)
      && (o.Split? ==> n.children + o.right.children == children)
  {
  }

  /** `node_set` */
  function NodeSet(lt: Lt, n: BNode, key: Row, ghost h: nat): (r: (BNode, Outcome))
    requires RootShape(n, h)
    ensures Shape(r.0, h) && (r.1.Split? ==> Shape(r.1.right, h))
    decreases h
  {
    match n
    case Leaf(keys) => LeafSet(lt, keys, key)
    case Internal(keys, children) =>
      var i := ChildIndex(lt, keys, key);
      var (child, outcome) := NodeSet(lt, children[i], key, h - 1);
      GraftShape(n, i, child, outcome, h);
      Graft(n, i, child, outcome)
  }

  /** The internal arm of `node_set`, unfolded. */
  lemma NodeSetUnfolds(lt: Lt, n: BNode, key: Row, h: nat)
    requires h > 0 && Shape(n, h)
    ensures var i := ChildIndex(lt, n.keys, key);
      && |n.keys| == |n.children| && i < |n.children| && Shape(n.children[i], h - 1) && RootShape(n.children[i], h - 1)
      && var r := NodeSet(lt, n.children[i], key, h - 1);
      && r.0.keys != [] && (r.1.Split? ==> r.1.right.keys != [])
      && NodeSet(lt, n, key, h) == Graft(n, i, r.0, r.1)
  {
    hide Graft;
  }

  lemma {:induction false} GraftShape(n: BNode, i: nat, child: BNode, outcome: Outcome, h: nat)
    requires Shape(n, h) && h > 0 && i < |n.children| && Shape(child, h - 1)
    requires outcome.Split? ==> Shape(outcome.right, h - 1)
    ensures var (n', o) := Graft(n, i, child, outcome);
      Shape(n', h) && (o.Split? ==> Shape(o.right, h))
  {
    if outcome.Split? { GraftKids(n, i, child, outcome.right, h); }
  }

  lemma {:induction false} GraftKids(n: BNode, i: nat, left: BNode, right: BNode, h: nat)
    requires Shape(n, h) && h > 0 && i < |n.children| && Shape(left, h - 1) && Shape(right, h - 1)
    ensures Kids(n.keys[..i] + [MaxKey(left), MaxKey(right)] + n.keys[i + 1..],
      n.children[..i] + [left, right] + n.children[i + 1..], h - 1)
  {
    var children := n.children[..i] + [left, right] + n.children[i + 1..];
    var keys := n.keys[..i] + [MaxKey(left), MaxKey(right)] + n.keys[i + 1..];
    forall k | 0 <= k < |children| ensures Shape(children[k], h - 1) && keys[k] == MaxKey(children[k]) {
      if k > i + 1 { assert children[k] == n.children[k - 1] && keys[k] == n.keys[k - 1]; }
    }
  }

  /** The rows of a node together with those of the sibling it may have split off. */
  function SetFlat(n: BNode, o: Outcome): seq<Row> {
    if o.Split? then Flat(n) + Flat(o.right) else Flat(n)
  }

  lemma {:induction false} FlatAllSandwich(p: seq<BNode>, mid: seq<BNode>, q: seq<BNode>)
    ensures FlatAll(p + mid + q) == FlatAll(p) + FlatAll(mid) + FlatAll(q)
  {
    hide Flat;
    FlatAllConcat(p + mid, q);
    FlatAllConcat(p, mid);
  }

  lemma {:induction false} FlatAllPair(x: BNode, y: BNode)
    ensures FlatAll([x, y]) == Flat(x) + Flat(y)
  {
    hide Flat;
    assert [x, y] == [x] + [y];
    FlatAllConcat([x], [y]);
    FlatAllOne(x);
    FlatAllOne(y);
  }

  /** The rows after grafting: the child's rows replaced by its new rows. */
  lemma {:induction false} GraftFlat(n: BNode, i: nat, child: BNode, outcome: Outcome)
    requires n.Internal? && |n.keys| == |n.children| && i < |n.children| && child.keys != []
    requires outcome.Split? ==> outcome.right.keys != []
    ensures var (n', o) := Graft(n, i, child, outcome);
      && o.Existed? == outcome.Existed?
      && SetFlat(n', o) == FlatAll(n.children[..i]) + SetFlat(child, outcome) + FlatAll(n.children[i + 1..])
  {
    if outcome.Split? {
      var children := n.children[..i] + [child, outcome.right] + n.children[i + 1..];
      FlatAllSandwich(n.children[..i], [child, outcome.right], n.children[i + 1..]);
      FlatAllPair(child, outcome.right);
      var mid := |children| / 2;
      FlatAllConcat(children[..mid], children[mid..]);
      assert children == children[..mid] + children[mid..];
    } else {
      assert n.children[i := child] == n.children[..i] + [child] + n.children[i + 1..];
      FlatAllSandwich(n.children[..i], [child], n.children[i + 1..]);
      FlatAllOne(child);
    }
  }

  /** A key that belongs to the middle part is found there. */
  lemma {:induction false} SearchMiddle(lt: Lt, a: seq<Row>, b: seq<Row>, c: seq<Row>, key: Row)
    requires StrictWeak(lt) && Sorted(lt, a + b + c)
    requires a != [] ==> lt(Last(a), key)
    requires c != [] ==> b != [] && !lt(Last(b), key)
    ensures LowerBound(lt, a + b + c, key) == |a| + LowerBound(lt, b, key)
    ensures Hit(lt, a + b + c, key) == Hit(lt, b, key)
    ensures Lookup(lt, a + b + c, key) == Lookup(lt, b, key)
  {
    var s, i := a + b + c, LowerBound(lt, b, key);
    assert i < |b| ==> s[|a| + i] == b[i];
    assert i > 0 ==> s[|a| + i - 1] == b[i - 1];
    LowerBoundUnique(lt, s, key, |a| + i);
  }

  /** Insertion or removal in the middle part, given where the key falls. */
  lemma {:induction false} UpdateMiddle(lt: Lt, a: seq<Row>, b: seq<Row>, c: seq<Row>, key: Row)
    requires LowerBound(lt, a + b + c, key) == |a| + LowerBound(lt, b, key)
    requires Hit(lt, a + b + c, key) == Hit(lt, b, key)
    ensures Insert(lt, a + b + c, key) == a + Insert(lt, b, key) + c
    ensures Remove(lt, a + b + c, key) == a + Remove(lt, b, key) + c
  {
    hide InsertAt;
    hide RemoveAt;
    hide LowerBound;
    SpliceMiddle(a, b, c, LowerBound(lt, b, key), Hit(lt, b, key), key);
  }

  lemma SpliceMiddle(a: seq<Row>, b: seq<Row>, c: seq<Row>, i: nat, hit: bool, key: Row)
    requires i <= |b| && (hit ==> i < |b|)
    ensures InsertAt(a + b + c, |a| + i, hit, key) == a + InsertAt(b, i, hit, key) + c
    ensures RemoveAt(a + b + c, |a| + i, hit) == a + RemoveAt(b, i, hit) + c
  {
    var s := a + b + c;
    assert s[..|a| + i] == a + b[..i] && s[|a| + i..] == b[i..] + c;
    if hit {
      assert s[|a| + i + 1..] == b[i + 1..] + c;
    } else {
      assert (a + b[..i]) + [key] + (b[i..] + c) == a + (b[..i] + [key] + b[i..]) + c;
    }
  }

  lemma SortedParts(lt: Lt, a: seq<Row>, b: seq<Row>, c: seq<Row>)
    requires Sorted(lt, a + b + c)
    ensures Sorted(lt, a) && Sorted(lt, b) && Sorted(lt, c)
  {
    var s := a + b + c;
    assert forall i :: 0 <= i < |a| ==> a[i] == s[i];
    assert forall i :: 0 <= i < |b| ==> b[i] == s[|a| + i];
    assert forall i :: 0 <= i < |c| ==> c[i] == s[|a| + |b| + i];
  }

  /** Descending into child `i` is right when every earlier cached maximum is below the key
      and, unless `i` is last, its own is not. */
  lemma {:induction false} Descend(lt: Lt, n: BNode, i: nat, key: Row, h: nat)
    requires StrictWeak(lt) && h > 0 && Shape(n, h) && Sorted(lt, Flat(n)) && i < |n.children|
    requires i > 0 ==> lt(n.keys[i - 1], key)
    requires i + 1 < |n.children| ==> !lt(n.keys[i], key)
    ensures var (a, b, c) := (FlatAll(n.children[..i]), Flat(n.children[i]), FlatAll(n.children[i + 1..]));
      && Sorted(lt, b)
      && Hit(lt, Flat(n), key) == Hit(lt, b, key)
      && Lookup(lt, Flat(n), key) == Lookup(lt, b, key)
      && Insert(lt, Flat(n), key) == a + Insert(lt, b, key) + c
      && Order.Remove(lt, Flat(n), key) == a + Order.Remove(lt, b, key) + c
  {
    hide *;
    InternalAt(n, h);
    var (a, b, c) := (FlatAll(n.children[..i]), Flat(n.children[i]), FlatAll(n.children[i + 1..]));
    DescendSides(lt, n, i, key, h);
    SortedParts(lt, a, b, c);
    SearchMiddle(lt, a, b, c, key);
    UpdateMiddle(lt, a, b, c, key);
  }

  /** The rows around child `i`: those before it end below the key, and if any follow it, it has
      rows and they do not end below the key. */
  lemma {:induction false} DescendSides(lt: Lt, n: BNode, i: nat, key: Row, h: nat)
    requires h > 0 && Shape(n, h) && n.Internal? && i < |n.children| && |n.keys| == |n.children|
    requires i > 0 ==> lt(n.keys[i - 1], key)
    requires i + 1 < |n.children| ==> !lt(n.keys[i], key)
    ensures var (a, b, c) := (FlatAll(n.children[..i]), Flat(n.children[i]), FlatAll(n.children[i + 1..]));
      && Flat(n) == a + b + c
      && (a != [] ==> lt(Last(a), key))
      && (c != [] ==> b != [] && !lt(Last(b), key))
  {
    FlatNone();
    hide FlatAll;
    FlatAllAt(n.children, i);
    ShapeFlat(n.children[i], h - 1);
    if i > 0 { KidsLast(n.keys[..i], n.children[..i], h - 1); } else { assert n.children[..i] == []; }
    if i + 1 == |n.children| { assert n.children[i + 1..] == []; }
  }

  lemma InternalAt(n: BNode, h: nat)
    requires h > 0 && Shape(n, h)
    ensures n.Internal? && |n.keys| == |n.children|
  {
  }

  lemma FlatNone()
    ensures FlatAll([]) == []
  {
  }

  /** `node_set` inserts into (or overwrites in) the node's rows, and reports whether the key
      was already there; the rows of a node that splits are shared between the two halves. */
  lemma {:induction false} NodeSetCorrect(lt: Lt, n: BNode, key: Row, h: nat)
    requires StrictWeak(lt) && RootShape(n, h) && Sorted(lt, Flat(n))
    ensures var (n', o) := NodeSet(lt, n, key, h);
      && SetFlat(n', o) == Insert(lt, Flat(n), key)
      && (o.Existed? <==> Hit(lt, Flat(n), key))
    decreases h
  {
    hide FlatAll;
    hide Insert;
    hide Order.Remove;
    hide Lookup;
    hide Sorted;
    hide Graft;
    if n.Internal? {
      var i := ChildIndex(lt, n.keys, key);
      Descend(lt, n, i, key, h);
      NodeSetCorrect(lt, n.children[i], key, h - 1);
      SetBelow(lt, n, key, h);
    } else {
      LeafSetFlat(lt, n.keys, key);
    }
  }

  lemma {:induction false} LeafSetFlat(lt: Lt, keys: seq<Row>, key: Row)
    ensures var (n', o) := LeafSet(lt, keys, key);
      SetFlat(n', o) == Insert(lt, keys, key) && (o.Existed? <==> Hit(lt, keys, key))
  {
    var ks := Insert(lt, keys, key);
    assert ks == ks[..|ks| / 2] + ks[|ks| / 2..];
  }

  /** Setting below a child replaces that child's rows. */
  lemma {:induction false} SetBelow(lt: Lt, n: BNode, key: Row, h: nat)
    requires h > 0 && Shape(n, h)
    ensures var i := ChildIndex(lt, n.keys, key);
      var (child, o) := NodeSet(lt, n.children[i], key, h - 1);
      var (n', o') := NodeSet(lt, n, key, h);
      && o'.Existed? == o.Existed?
      && SetFlat(n', o') == FlatAll(n.children[..i]) + SetFlat(child, o) + FlatAll(n.children[i + 1..])
  {
    var i := ChildIndex(lt, n.keys, key);
    var (child, o) := NodeSet(lt, n.children[i], key, h - 1);
    GraftFlat(n, i, child, o);
  }

  // ---- deletion ----

  function DropAt<T>(s: seq<T>, i: nat): (r: seq<T>)
    requires i < |s|
    ensures |r| == |s| - 1
  {
    s[..i] + s[i + 1..]
  }

  /** `try_merge`: merge child `i` with its right neighbour when both fit in one node. */
  function TryMerge(n: BNode, i: nat, ghost h: nat): (r: BNode)
    requires h > 0 && Shape(n, h) && i < |n.children|
    ensures Shape(r, h)
    decreases h, 0
  {
    if i + 1 < |n.children| && |n.children[i].keys| + |n.children[i + 1].keys| <= MAX_NODE_SIZE then
      var left := MergeInto(n.children[i], n.children[i + 1], h - 1);
      Fused(n, i, left, h)
    else n
  }

  /** Child `i` replaced by `left`, child `i + 1` dropped, the cached maximum refreshed. */
  function Fused(n: BNode, i: nat, left: BNode, ghost h: nat): (r: BNode)
    requires h > 0 && Shape(n, h) && i + 1 < |n.children| && Shape(left, h - 1)
    ensures Shape(r, h)
  {
    var keys := DropAt(n.keys, i + 1)[i := MaxKey(left)];
    var children := DropAt(n.children, i + 1)[i := left];
    Internal(keys, children)
  }

  /** Two neighbours become one exactly when their 64 or fewer keys fit in one node. */
  lemma MergesIff(n: BNode, i: nat, h: nat)
    requires h > 0 && Shape(n, h) && i < |n.children|
    ensures var fits := i + 1 < |n.children| && |n.children[i].keys| + |n.children[i + 1].keys| <= 64;
      var r := TryMerge(n, i, h);
      if fits then r.Internal? && |r.children| == |n.children| - 1 else r == n
  {
  }

  /** `merge_into`: append `right`; for internal nodes also try to merge the new seam. */
  function MergeInto(left: BNode, right: BNode, ghost h: nat): (r: BNode)
    requires Shape(left, h) && Shape(right, h) && |left.keys| + |right.keys| <= MAX_NODE_SIZE
    ensures Shape(r, h)
    decreases h, 1
  {
    match left
    case Leaf(keys) => Leaf(keys + right.keys)
    case Internal(keys, children) =>
      TryMerge(Internal(keys + right.keys, children + right.children), |children| - 1, h)
  }

  /** Two neighbours that fit in one node. */
  ghost predicate CanMerge(left: BNode, right: BNode, h: nat) {
    Shape(left, h) && Shape(right, h) && |left.keys| + |right.keys| <= MAX_NODE_SIZE
  }

  ghost predicate CanFuse(n: BNode, i: nat, h: nat) {
    h > 0 && Shape(n, h) && i + 1 < |n.children| && CanMerge(n.children[i], n.children[i + 1], h - 1)
  }

  lemma CanMergeMeans(left: BNode, right: BNode, h: nat)
    requires CanMerge(left, right, h)
    ensures Shape(left, h) && Shape(right, h) && |left.keys| + |right.keys| <= MAX_NODE_SIZE
  {
  }

  lemma CanFuseMeans(n: BNode, i: nat, h: nat)
    requires CanFuse(n, i, h)
    ensures n.Internal? && h > 0 && Shape(n, h) && i + 1 < |n.children| && |n.keys| == |n.children|
    ensures CanMerge(n.children[i], n.children[i + 1], h - 1)
    ensures Shape(n.children[i], h - 1) && Shape(n.children[i + 1], h - 1)
    ensures |n.children[i].keys| + |n.children[i + 1].keys| <= MAX_NODE_SIZE
    ensures var left := MergeInto(n.children[i], n.children[i + 1], h - 1);
      && left.keys != []
      && Fused(n, i, left, h)
         == Internal(DropAt(n.keys, i + 1)[i := Last(left.keys)], DropAt(n.children, i + 1)[i := left])
  {
  }

  lemma DropShape(n: BNode, j: nat, h: nat)
    requires n.Internal? && h > 0 && Shape(n, h) && j < |n.children| && |n.children| > 1
    ensures |n.keys| == |n.children|
    ensures Shape(Internal(DropAt(n.keys, j), DropAt(n.children, j)), h)
    ensures |DropAt(n.children, j)| == |n.children| - 1
    ensures forall i :: 0 <= i < j ==> DropAt(n.children, j)[i] == n.children[i]
  {
  }

  lemma TryMergeUnfolds(n: BNode, i: nat, h: nat)
    requires h > 0 && Shape(n, h) && n.Internal? && i + 1 < |n.children|
    requires |n.children[i].keys| + |n.children[i + 1].keys| <= MAX_NODE_SIZE
    ensures CanFuse(n, i, h)
    ensures Shape(n.children[i], h - 1) && Shape(n.children[i + 1], h - 1)
    ensures TryMerge(n, i, h) == Fused(n, i, MergeInto(n.children[i], n.children[i + 1], h - 1), h)
  {
    hide Fused;
    hide MergeInto;
  }

  lemma TryMergeIdle(n: BNode, i: nat, h: nat)
    requires h > 0 && Shape(n, h) && n.Internal? && i < |n.children|
    requires i + 1 < |n.children| ==> |n.children[i].keys| + |n.children[i + 1].keys| > MAX_NODE_SIZE
    ensures TryMerge(n, i, h) == n
  {
    hide Fused;
    hide MergeInto;
  }

  lemma MergeLeaves(left: BNode, right: BNode, h: nat)
    requires CanMerge(left, right, h) && left.Leaf?
    ensures MergeInto(left, right, h) == Leaf(left.keys + right.keys)
  {
  }

  lemma MergeInternals(left: BNode, right: BNode, h: nat)
    requires CanMerge(left, right, h) && left.Internal? && right.Internal?
    ensures h > 0 && |left.children| > 0 && |left.children| == |left.keys| && |right.children| == |right.keys|
    ensures var both := Internal(left.keys + right.keys, left.children + right.children);
      && Shape(both, h)
      && MergeInto(left, right, h) == TryMerge(both, |left.children| - 1, h)
  {
    hide TryMerge;
  }

  /** One step of the merge scan of `node_delete` at child `j`. */
  function ScanAt(n: BNode, j: nat, ghost h: nat): (r: BNode)
    requires ScanReady(n, j, h)
    ensures Shape(r, h) || r == Internal([], [])
  {
    if j < |n.children| && |n.children[j].keys| <= MAX_NODE_SIZE / 2 then
      if IsEmptyNode(n.children[j]) then Internal(DropAt(n.keys, j), DropAt(n.children, j))
      else TryMerge(n, j, h)
    else n
  }

  /** The scan drops an emptied child, and merges one with at most 32 keys where that fits. */
  lemma ScanMerges(n: BNode, j: nat, h: nat)
    requires ScanReady(n, j, h) && j < |n.children|
    ensures var (c, r) := (n.children[j], ScanAt(n, j, h));
      && (IsEmptyNode(c) ==> r == Internal(DropAt(n.keys, j), DropAt(n.children, j)))
      && (!IsEmptyNode(c) && |c.keys| > 32 ==> r == n)
      && (!IsEmptyNode(c) && |c.keys| <= 32 && j + 1 < |n.children| && |c.keys| + |n.children[j + 1].keys| <= 64 ==>
          r.Internal? && |r.children| == |n.children| - 1)
  {
    if !IsEmptyNode(n.children[j]) { MergesIff(n, j, h); }
  }

  /** Every child is well shaped, except that child `j` may have been emptied. */
  ghost predicate ScanReady(n: BNode, j: nat, h: nat) {
    && h > 0 && n.Internal? && |n.keys| == |n.children| <= MAX_NODE_SIZE
    && (j < |n.children| && IsEmptyNode(n.children[j]) ==> n.children[j].keys == [])
    && (if j < |n.children| && IsEmptyNode(n.children[j])
        then Kids(DropAt(n.keys, j), DropAt(n.children, j), h - 1)
        else Shape(n, h) || n == Internal([], []))
  }

  lemma ShapedIsReady(n: BNode, j: nat, h: nat)
    requires h > 0 && (Shape(n, h) || n == Internal([], []))
    ensures ScanReady(n, j, h)
  {
    if j < |n.children| { assert Shape(n.children[j], h - 1); }
  }

  /** The merge scan: child `i`, then its left neighbour. */
  function MergeScan(n: BNode, i: nat, ghost h: nat): (r: BNode)
    requires ScanReady(n, i, h)
    ensures Shape(r, h) || r == Internal([], [])
  {
    var n1 := ScanAt(n, i, h);
    if i == 0 then n1
    else
      ShapedIsReady(n1, i - 1, h);
      ScanAt(n1, i - 1, h)
  }

  /** `node_delete` */
  function NodeDelete(lt: Lt, n: BNode, key: Row, ghost h: nat): (r: (BNode, bool))
    requires RootShape(n, h)
    ensures Shape(r.0, h) || (IsEmptyNode(r.0) && r.0.keys == [] && (r.0.Leaf? <==> h == 0))
    decreases h
  {
    var i := LowerBound(lt, n.keys, key);
    match n
    case Leaf(keys) => (Leaf(Order.Remove(lt, keys, key)), Hit(lt, keys, key))
    case Internal(keys, children) =>
      if i >= |children| then (n, false)
      else
        var (child, removed) := NodeDelete(lt, children[i], key, h - 1);
        (MergeScan(Refreshed(n, i, child, h), i, h), removed)
  }

  /** The internal arm of `node_delete`, unfolded. */
  lemma NodeDeleteUnfolds(lt: Lt, n: BNode, key: Row, h: nat)
    requires h > 0 && Shape(n, h) && n.Internal?
    ensures |n.keys| == |n.children|
    ensures var i := LowerBound(lt, n.keys, key);
      if i >= |n.children| then NodeDelete(lt, n, key, h) == (n, false)
      else
        && Shape(n.children[i], h - 1) && RootShape(n.children[i], h - 1)
        && var r := NodeDelete(lt, n.children[i], key, h - 1);
        && (Shape(r.0, h - 1) || (IsEmptyNode(r.0) && r.0.keys == [])) && (!IsEmptyNode(r.0) ==> r.0.keys != [])
        && NodeDelete(lt, n, key, h) == (MergeScan(Refreshed(n, i, r.0, h), i, h), r.1)
        && Refreshed(n, i, r.0, h)
          == Internal(if IsEmptyNode(r.0) then n.keys else n.keys[i := Last(r.0.keys)], n.children[i := r.0])
  {
    hide MergeScan;
  }

  lemma MergeScanUnfolds(n: BNode, i: nat, h: nat)
    requires ScanReady(n, i, h)
    ensures n.Internal?
    ensures i == 0 ==> MergeScan(n, i, h) == ScanAt(n, i, h)
    ensures i > 0 ==> ScanReady(ScanAt(n, i, h), i - 1, h) && MergeScan(n, i, h) == ScanAt(ScanAt(n, i, h), i - 1, h)
  {
    hide ScanAt;
    if i > 0 { ShapedIsReady(ScanAt(n, i, h), i - 1, h); }
  }

  /** The three cases of a scan step. */
  lemma ScanAtUnfolds(n: BNode, j: nat, h: nat)
    requires ScanReady(n, j, h)
    ensures n.Internal? && |n.keys| == |n.children|
    ensures j >= |n.children| || |n.children[j].keys| > MAX_NODE_SIZE / 2 ==> ScanAt(n, j, h) == n
    ensures j < |n.children| && IsEmptyNode(n.children[j]) ==>
      && n.children[j].keys == [] && ScanAt(n, j, h) == Internal(DropAt(n.keys, j), DropAt(n.children, j))
    ensures j < |n.children| && !IsEmptyNode(n.children[j]) ==>
      && h > 0 && Shape(n, h) && (|n.children[j].keys| <= MAX_NODE_SIZE / 2 ==> ScanAt(n, j, h) == TryMerge(n, j, h))
  {
    hide TryMerge;
    hide DropAt;
  }

  /** Child `i` replaced; its cached maximum refreshed unless the child emptied. */
  function Refreshed(n: BNode, i: nat, child: BNode, ghost h: nat): (r: BNode)
    requires h > 0 && Shape(n, h) && i < |n.children|
    requires Shape(child, h - 1) || (IsEmptyNode(child) && child.keys == [])
    ensures ScanReady(r, i, h)
  {
    Internal(if IsEmptyNode(child) then n.keys else n.keys[i := MaxKey(child)], n.children[i := child])
  }

  lemma {:induction false} FusedFlat(n: BNode, i: nat, left: BNode, h: nat)
    requires h > 0 && Shape(n, h) && i + 1 < |n.children| && Shape(left, h - 1)
    requires Flat(left) == Flat(n.children[i]) + Flat(n.children[i + 1])
    ensures Flat(Fused(n, i, left, h)) == Flat(n)
  {
    var (p, q) := (n.children[..i], n.children[i + 2..]);
    assert n.children == p + [n.children[i], n.children[i + 1]] + q;
    assert Fused(n, i, left, h).children == p + [left] + q;
    FlatAllSandwich(p, [n.children[i], n.children[i + 1]], q);
    FlatAllSandwich(p, [left], q);
    FlatAllPair(n.children[i], n.children[i + 1]);
    FlatAllOne(left);
  }

  /** Merging never changes the rows. */
  lemma {:induction false} TryMergeFlat(n: BNode, i: nat, h: nat)
    requires h > 0 && Shape(n, h) && i < |n.children|
    ensures Flat(TryMerge(n, i, h)) == Flat(n)
    decreases h, 0
  {
    if i + 1 < |n.children| && |n.children[i].keys| + |n.children[i + 1].keys| <= MAX_NODE_SIZE {
      MergeIntoFlat(n.children[i], n.children[i + 1], h - 1);
      FusedFlat(n, i, MergeInto(n.children[i], n.children[i + 1], h - 1), h);
    }
  }

  lemma {:induction false} MergeIntoFlat(left: BNode, right: BNode, h: nat)
    requires Shape(left, h) && Shape(right, h) && |left.keys| + |right.keys| <= MAX_NODE_SIZE
    ensures Flat(MergeInto(left, right, h)) == Flat(left) + Flat(right)
    decreases h, 1
  {
    if left.Internal? {
      TryMergeFlat(Internal(left.keys + right.keys, left.children + right.children), |left.children| - 1, h);
      FlatAllConcat(left.children, right.children);
    }
  }

  lemma {:induction false} ScanAtFlat(n: BNode, j: nat, h: nat)
    requires ScanReady(n, j, h)
    ensures Flat(ScanAt(n, j, h)) == Flat(n)
  {
    if j < |n.children| && |n.children[j].keys| <= MAX_NODE_SIZE / 2 {
      if IsEmptyNode(n.children[j]) {
        FlatAllAt(n.children, j);
        FlatAllConcat(n.children[..j], n.children[j + 1..]);
      } else {
        TryMergeFlat(n, j, h);
      }
    }
  }

  /** `node_delete` removes exactly the row with the given key, and reports whether there was
      one.  Deleting an absent key may still merge nodes, but keeps the rows and the shape. */
  lemma {:induction false} NodeDeleteCorrect(lt: Lt, n: BNode, key: Row, h: nat)
    requires StrictWeak(lt) && RootShape(n, h) && Sorted(lt, Flat(n))
    ensures var (n', removed) := NodeDelete(lt, n, key, h);
      && Flat(n') == Order.Remove(lt, Flat(n), key)
      && removed == Hit(lt, Flat(n), key)
    decreases h
  {
    hide MergeScan;
    hide Refreshed;
    hide FlatAll;
    hide Order.Remove;
    hide Insert;
    hide Lookup;
    hide Sorted;
    hide StrictWeak;
    if n.Internal? {
      var i := LowerBound(lt, n.keys, key);
      if i >= |n.children| {
        PastEnd(lt, n, key, h);
      } else {
        Descend(lt, n, i, key, h);
        NodeDeleteCorrect(lt, n.children[i], key, h - 1);
        var child := NodeDelete(lt, n.children[i], key, h - 1).0;
        RefreshedFlat(n, i, child, h);
        MergeScanFlat(Refreshed(n, i, child, h), i, h);
      }
    }
  }

  lemma {:induction false} PastEnd(lt: Lt, n: BNode, key: Row, h: nat)
    requires StrictWeak(lt) && Shape(n, h) && Sorted(lt, Flat(n)) && lt(MaxKey(n), key)
    ensures !Hit(lt, Flat(n), key) && Order.Remove(lt, Flat(n), key) == Flat(n)
  {
    ShapeFlat(n, h);
    LowerBoundUnique(lt, Flat(n), key, |Flat(n)|);
  }

  lemma {:induction false} MergeScanFlat(n: BNode, i: nat, h: nat)
    requires ScanReady(n, i, h)
    ensures Flat(MergeScan(n, i, h)) == Flat(n)
  {
    ScanAtFlat(n, i, h);
    if i > 0 {
      ShapedIsReady(ScanAt(n, i, h), i - 1, h);
      ScanAtFlat(ScanAt(n, i, h), i - 1, h);
    }
  }

  lemma {:induction false} RefreshedFlat(n: BNode, i: nat, child: BNode, h: nat)
    requires h > 0 && Shape(n, h) && i < |n.children|
    requires Shape(child, h - 1) || (IsEmptyNode(child) && child.keys == [])
    ensures Flat(Refreshed(n, i, child, h)) == FlatAll(n.children[..i]) + Flat(child) + FlatAll(n.children[i + 1..])
  {
    assert n.children[i := child] == n.children[..i] + [child] + n.children[i + 1..];
    FlatAllSandwich(n.children[..i], [child], n.children[i + 1..]);
    FlatAllOne(child);
  }

  // ---- whole trees ----

  const EMPTY: Tree := Tree(Leaf([]), 0)

  /** A root that split gets a parent one level taller. */
  function Grow(root: BNode, o: Outcome): BNode
    requires root.keys != [] && (o.Split? ==> o.right.keys != [])
  {
    if o.Split? then Internal([MaxKey(root), MaxKey(o.right)], [root, o.right]) else root
  }

  /** `BTree::add` */
  function Add(lt: Lt, t: Tree, key: Row): (Tree, bool)
    requires RootShape(t.root, Height(t.root))
  {
    var (root, o) := NodeSet(lt, t.root, key, Height(t.root));
    (Tree(Grow(root, o), if o.Existed? then t.size else t.size + 1), !o.Existed?)
  }

  /** `collapse_root` */
  function Collapse(n: BNode): BNode {
    match n
    case Leaf(_) => n
    case Internal(_, children) =>
      if |children| == 1 then Collapse(children[0])
      else if children == [] then Leaf([])
      else n
  }

  lemma CollapseOne(n: BNode)
    requires n.Internal? && |n.children| == 1
    ensures Collapse(n) == Collapse(n.children[0])
  {
  }

  lemma CollapseStop(n: BNode)
    requires !(n.Internal? && |n.children| == 1)
    ensures Collapse(n) == if n.Internal? && n.children == [] then Leaf([]) else n
  {
  }

  /** `BTree::delete`: the root collapses only when a row was removed. */
  function Delete(lt: Lt, t: Tree, key: Row): (Tree, bool)
    requires RootShape(t.root, Height(t.root))
  {
    var (root, removed) := NodeDelete(lt, t.root, key, Height(t.root));
    if removed then (Tree(Collapse(root), t.size - 1), true) else (Tree(root, t.size), false)
  }

  /** `add` keeps every tree invariant and updates the ordered set; it returns true exactly
      when the key is new. */
  lemma {:induction false} AddCorrect(lt: Lt, t: Tree, key: Row)
    requires StrictWeak(lt) && Ok(lt, t)
    ensures var (t', added) := Add(lt, t, key);
      && Ok(lt, t')
      && Contents(t') == Insert(lt, Contents(t), key)
      && added == !Hit(lt, Contents(t), key)
  {
    var h := Height(t.root);
    NodeSetCorrect(lt, t.root, key, h);
    InsertActsAsUpdate(lt, Contents(t), key, key);
    var (root, o) := NodeSet(lt, t.root, key, h);
    GrowShape(root, o, h);
  }

  lemma {:induction false} GrowShape(root: BNode, o: Outcome, h: nat)
    requires Shape(root, h) && (o.Split? ==> Shape(o.right, h))
    ensures var r := Grow(root, o);
      Shape(r, Height(r)) && Flat(r) == SetFlat(root, o)
  {
    ShapeFlat(root, h);
    if o.Split? {
      FlatAllPair(root, o.right);
      assert Shape(Grow(root, o), h + 1);
    }
  }

  lemma {:induction false} CollapseKeeps(n: BNode, h: nat)
    requires Shape(n, h) || (IsEmptyNode(n) && n.keys == [])
    ensures Flat(Collapse(n)) == Flat(n)
    ensures RootShape(Collapse(n), Height(Collapse(n)))
    decreases h
  {
    if Shape(n, h) {
      ShapeFlat(n, h);
      if n.Internal? && |n.children| == 1 {
        FlatAllOne(n.children[0]);
        assert n.children == [n.children[0]];
        CollapseKeeps(n.children[0], h - 1);
      }
    }
  }

  /** `delete` keeps every tree invariant and erases the key; an absent key may still merge
      nodes but never changes the rows. */
  lemma {:induction false} DeleteCorrect(lt: Lt, t: Tree, key: Row)
    requires StrictWeak(lt) && Ok(lt, t)
    ensures var (t', removed) := Delete(lt, t, key);
      && Ok(lt, t')
      && Contents(t') == Order.Remove(lt, Contents(t), key)
      && removed == Hit(lt, Contents(t), key)
  {
    var h := Height(t.root);
    NodeDeleteCorrect(lt, t.root, key, h);
    RemoveActsAsErasure(lt, Contents(t), key, key);
    var (root, removed) := NodeDelete(lt, t.root, key, h);
    if removed {
      CollapseKeeps(root, h);
    } else if Shape(root, h) {
      ShapeFlat(root, h);
    } else if Shape(t.root, h) {
      ShapeFlat(t.root, h);
    }
  }

  /** `find` */
  function Find(lt: Lt, n: BNode, key: Row, ghost h: nat): Option<Row>
    requires RootShape(n, h)
    decreases h
  {
    match n
    case Leaf(keys) => Lookup(lt, keys, key)
    case Internal(keys, children) => Find(lt, children[ChildIndex(lt, keys, key)], key, h - 1)
  }

  /** Descent by cached maxima finds exactly what a scan of the rows finds. */
  lemma {:induction false} FindCorrect(lt: Lt, n: BNode, key: Row, h: nat)
    requires StrictWeak(lt) && RootShape(n, h) && Sorted(lt, Flat(n))
    ensures Find(lt, n, key, h) == Lookup(lt, Flat(n), key)
    decreases h
  {
    hide FlatAll;
    hide Insert;
    hide Order.Remove;
    hide Sorted;
    if n.Internal? {
      var i := ChildIndex(lt, n.keys, key);
      Descend(lt, n, i, key, h);
      FindCorrect(lt, n.children[i], key, h - 1);
    }
  }

  // ---- nodes ready to be searched ----

  /** The cached maxima of a node are strictly sorted. */
  lemma {:induction false} KeysSorted(lt: Lt, n: BNode, h: nat)
    requires Shape(n, h) && Sorted(lt, Flat(n))
    ensures Sorted(lt, n.keys)
  {
    if n.Internal? {
      forall i, j | 0 <= i < j < |n.keys| ensures lt(n.keys[i], n.keys[j]) {
        MaxAt(n, i, h);
        MaxAt(n, j, h);
        MaxOrder(n, i, j, h);
      }
    }
  }

  lemma {:induction false} MaxAt(n: BNode, i: nat, h: nat)
    requires h > 0 && n.Internal? && Shape(n, h) && i < |n.children|
    ensures var p := |FlatAll(n.children[..i + 1])|;
      0 < p <= |Flat(n)| && Flat(n)[p - 1] == n.keys[i]
  {
    hide FlatAll;
    KidsLast(n.keys[..i + 1], n.children[..i + 1], h - 1);
    FlatAllConcat(n.children[..i + 1], n.children[i + 1..]);
    assert n.children == n.children[..i + 1] + n.children[i + 1..];
  }

  lemma {:induction false} MaxOrder(n: BNode, i: nat, j: nat, h: nat)
    requires h > 0 && n.Internal? && Shape(n, h) && i < j < |n.children|
    ensures |FlatAll(n.children[..i + 1])| < |FlatAll(n.children[..j + 1])|
  {
    FlatAllConcat(n.children[..j], [n.children[j]]);
    assert n.children[..j + 1] == n.children[..j] + [n.children[j]];
    FlatAllOne(n.children[j]);
    ShapeFlat(n.children[j], h - 1);
    if i + 1 < j { MaxOrder(n, i, j - 1, h); } else { assert n.children[..i + 1] == n.children[..j]; }
  }

  /** The rows of a subtree are in order, so its keys can be searched. */
  ghost predicate Ordered(lt: Lt, n: BNode) {
    StrictWeak(lt) && Sorted(lt, Flat(n))
  }

  lemma {:induction false} OrderedKeys(lt: Lt, n: BNode, h: nat)
    requires Ordered(lt, n) && RootShape(n, h)
    ensures StrictWeak(lt) && Sorted(lt, n.keys)
  {
    if Shape(n, h) { KeysSorted(lt, n, h); }
  }

  lemma {:induction false} OrderedChild(lt: Lt, n: BNode, i: nat, h: nat)
    requires Ordered(lt, n) && n.Internal? && Shape(n, h) && i < |n.children|
    ensures Ordered(lt, n.children[i])
  {
    hide FlatAll;
    FlatAllAt(n.children, i);
    SortedParts(lt, FlatAll(n.children[..i]), Flat(n.children[i]), FlatAll(n.children[i + 1..]));
  }

  // ---- the loops: binary search and bulk load ----

  /** `lower_bound` (and, clamped, `child_index`): binary search finds the first row not below
      the key. */
  method LowerBoundLoop(lt: Lt, keys: seq<Row>, key: Row) returns (lo: nat)
    requires StrictWeak(lt) && Sorted(lt, keys)
    ensures lo == LowerBound(lt, keys, key)
  {
    AllLaws(lt);
    lo := 0;
    var hi := |keys|;
    while lo < hi
      invariant lo <= hi <= |keys|
      invariant forall j :: 0 <= j < lo ==> lt(keys[j], key)
      invariant forall j :: hi <= j < |keys| ==> !lt(keys[j], key)
    {
      var mid := (lo + hi) / 2;
      if lt(keys[mid], key) { lo := mid + 1; } else { hi := mid; }
    }
    LowerBoundUnique(lt, keys, key, lo);
  }

  /** `child_index` */
  method ChildIndexLoop(lt: Lt, keys: seq<Row>, key: Row) returns (i: nat)
    requires StrictWeak(lt) && Sorted(lt, keys) && keys != []
    ensures i == ChildIndex(lt, keys, key)
  {
    var lo := LowerBoundLoop(lt, keys, key);
    i := if lo == |keys| then |keys| - 1 else lo;
  }

  /** `search`: three-way binary search; the index and whether it is an exact match. */
  method Search(lt: Lt, keys: seq<Row>, key: Row) returns (i: nat, found: bool)
    requires StrictWeak(lt) && Sorted(lt, keys)
    ensures i == LowerBound(lt, keys, key) && found == Hit(lt, keys, key)
  {
    AllLaws(lt);
    var lo, hi := 0, |keys|;
    while lo < hi
      invariant lo <= hi <= |keys|
      invariant forall j :: 0 <= j < lo ==> lt(keys[j], key)
      invariant forall j :: hi <= j < |keys| ==> lt(key, keys[j])
    {
      var mid := (lo + hi) / 2;
      if lt(keys[mid], key) {
        lo := mid + 1;
      } else if lt(key, keys[mid]) {
        hi := mid;
      } else {
        LowerBoundUnique(lt, keys, key, mid);
        return mid, true;
      }
    }
    LowerBoundUnique(lt, keys, key, lo);
    return lo, false;
  }

  function Min(a: nat, b: nat): nat {
    if a < b then a else b
  }

  ghost predicate Level(ns: seq<BNode>, h: nat) {
    forall i :: 0 <= i < |ns| ==> Shape(ns[i], h)
  }

  /** One node over a chunk of children. */
  function PackNode(children: seq<BNode>, ghost h: nat): (node: BNode)
    requires Level(children, h) && 1 <= |children| <= MAX_NODE_SIZE
    ensures Shape(node, h + 1) && Flat(node) == FlatAll(children)
  {
    Internal(seq(|children|, i requires 0 <= i < |children| => Maximum(children[i], h)), children)
  }

  function Maximum(n: BNode, ghost h: nat): Row
    requires Shape(n, h)
  {
    MaxKey(n)
  }

  /** One internal level of `from_sorted` over `level`, in chunks of MAX_NODE_SIZE. */
  method PackLevel(level: seq<BNode>, ghost h: nat) returns (next: seq<BNode>)
    requires Level(level, h) && |level| > 1
    ensures Level(next, h + 1) && FlatAll(next) == FlatAll(level) && 1 <= |next| < |level|
  {
    hide Flat;
    hide Shape;
    hide PackNode;
    next := [];
    var j := 0;
    while j < |level|
      invariant j <= |level| && Level(next, h + 1) && FlatAll(next) == FlatAll(level[..j])
      invariant if j == 0 then next == [] else 1 <= |next| < j
    {
      var k := j + Min(MAX_NODE_SIZE, |level| - j);
      var node := PackNode(level[j..k], h);
      FlatAllConcat(next, [node]);
      FlatAllOne(node);
      FlatAllConcat(level[..j], level[j..k]);
      assert level[..k] == level[..j] + level[j..k];
      next, j := next + [node], k;
    }
    assert level[..j] == level;
  }

  /** `from_sorted`: bulk load of any row sequence keeps the rows and builds a well-shaped tree;
      on strictly sorted input it is a valid tree. */
  method FromSorted(rows: seq<Row>) returns (t: Tree)
    ensures Contents(t) == rows && t.size == |rows| && RootShape(t.root, Height(t.root))
    ensures forall lt :: Sorted(lt, rows) ==> Ok(lt, t)
  {
    if rows == [] {
      return EMPTY;
    }
    var level: seq<BNode> := [];
    var i := 0;
    while i < |rows|
      invariant i <= |rows| && Level(level, 0) && FlatAll(level) == rows[..i] && (i > 0 ==> level != [])
    {
      var k := i + Min(MAX_NODE_SIZE, |rows| - i);
      var leaf := Leaf(rows[i..k]);
      FlatAllConcat(level, [leaf]);
      FlatAllOne(leaf);
      level, i := level + [leaf], k;
    }
    assert rows[..i] == rows;
    ghost var h := 0;
    while |level| > 1
      invariant level != [] && Level(level, h) && FlatAll(level) == rows
      decreases |level|
    {
      level := PackLevel(level, h);
      h := h + 1;
    }
    assert level == [level[0]];
    FlatAllOne(level[0]);
    ShapeFlat(level[0], h);
    t := Tree(level[0], |rows|);
  }
}
