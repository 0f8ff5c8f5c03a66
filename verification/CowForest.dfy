/** Handles on the reference-counted heap: every fork, tree and cursor snapshot is one.  A run
    of forks, writes and drops over shared nodes shows through each handle exactly what the
    same run would do to separate, unshared sets of rows. */
module CowForest {
  import opened Values
  import opened Order
  import opened CowStore
  import BT = BTree

  datatype Op =
    | Create
    | Fork(i: nat)
    | Add(i: nat, key: Row)
    | Delete(i: nat, key: Row)
    | Release(i: nat)

  /** What the operations mean on separate sorted sets, with no sharing. */
  function Step(lt: Lt, sets: seq<seq<Row>>, op: Op): seq<seq<Row>> {
    match op
    case Create => sets + [[]]
    case Fork(i) => if i < |sets| then sets + [sets[i]] else sets
    case Add(i, key) => if i < |sets| then sets[i := Insert(lt, sets[i], key)] else sets
    case Delete(i, key) => if i < |sets| then sets[i := Order.Remove(lt, sets[i], key)] else sets
    case Release(i) => if i < |sets| then BT.DropAt(sets, i) else sets
  }

  function Run(lt: Lt, ops: seq<Op>): seq<seq<Row>> {
    if ops == [] then [] else Step(lt, Run(lt, ops[..|ops| - 1]), ops[|ops| - 1])
  }

  /** Each handle denotes a valid tree holding its set, and the counts are exact. */
  ghost predicate Holds(lt: Lt, m: Mem, roots: seq<Addr>, sizes: seq<int>, trees: seq<BT.BNode>, sets: seq<seq<Row>>) {
    && |roots| == |sizes| == |trees| == |sets|
    && Good(m, multiset(roots))
    && forall i :: 0 <= i < |roots| ==> Handle(lt, m, roots[i], sizes[i], trees[i], sets[i])
  }

  ghost predicate Handle(lt: Lt, m: Mem, root: Addr, size: int, tree: BT.BNode, rows: seq<Row>) {
    Denotes(m.cells, root, tree) && BT.Ok(lt, BT.Tree(tree, size)) && BT.Flat(tree) == rows
  }

  lemma HandleEvolves(lt: Lt, m: Mem, m': Mem, keep: multiset<Addr>, root: Addr, size: int, tree: BT.BNode,
      rows: seq<Row>)
    requires Handle(lt, m, root, size, tree, rows) && Evolves(m, m', keep) && root in keep
    ensures Handle(lt, m', root, size, tree, rows)
  {
    hide Denotes;
    hide Evolves;
    hide BT.Ok;
    hide BT.Flat;
    EvolvesOne(m, m', keep, root, tree);
  }

  /** Replacing handle `i` while every other reference is kept. */
  lemma HandleReplaced(lt: Lt, m: Mem, m': Mem, roots: seq<Addr>, sizes: seq<int>, trees: seq<BT.BNode>,
      sets: seq<seq<Row>>, i: nat, root: Addr, size: int, tree: BT.BNode, rows: seq<Row>)
    requires Holds(lt, m, roots, sizes, trees, sets) && i < |roots|
    requires Evolves(m, m', multiset(BT.DropAt(roots, i))) && Good(m', multiset(BT.DropAt(roots, i)) + multiset{root})
    requires Handle(lt, m', root, size, tree, rows)
    ensures |roots| == |sizes| == |trees| == |sets|
    ensures Holds(lt, m', roots[i := root], sizes[i := size], trees[i := tree], sets[i := rows])
  {
    hide Good;
    hide Evolves;
    hide Handle;
    hide BT.DropAt;
    DropAtMultiset(roots, i);
    var keep := multiset(BT.DropAt(roots, i));
    forall j | 0 <= j < |roots| && j != i ensures Handle(lt, m', roots[j], sizes[j], trees[j], sets[j]) {
      HandleEvolves(lt, m, m', keep, roots[j], sizes[j], trees[j], sets[j]);
    }
    assert multiset(roots[i := root]) == keep + multiset{root};
  }

  lemma HandleAppended(lt: Lt, m: Mem, m': Mem, roots: seq<Addr>, sizes: seq<int>, trees: seq<BT.BNode>,
      sets: seq<seq<Row>>, root: Addr, size: int, tree: BT.BNode, rows: seq<Row>)
    requires Holds(lt, m, roots, sizes, trees, sets)
    requires Evolves(m, m', multiset(roots)) && Good(m', multiset(roots) + multiset{root})
    requires Handle(lt, m', root, size, tree, rows)
    ensures Holds(lt, m', roots + [root], sizes + [size], trees + [tree], sets + [rows])
  {
    hide Good;
    hide Evolves;
    hide Handle;
    forall j | 0 <= j < |roots| ensures Handle(lt, m', roots[j], sizes[j], trees[j], sets[j]) {
      HandleEvolves(lt, m, m', multiset(roots), roots[j], sizes[j], trees[j], sets[j]);
    }
    assert multiset(roots + [root]) == multiset(roots) + multiset{root};
  }

  lemma HandleRemoved(lt: Lt, m: Mem, m': Mem, roots: seq<Addr>, sizes: seq<int>, trees: seq<BT.BNode>,
      sets: seq<seq<Row>>, i: nat)
    requires Holds(lt, m, roots, sizes, trees, sets) && i < |roots|
    requires Evolves(m, m', multiset(BT.DropAt(roots, i))) && Good(m', multiset(BT.DropAt(roots, i)))
    ensures |roots| == |sizes| == |trees| == |sets|
    ensures Holds(lt, m', BT.DropAt(roots, i), BT.DropAt(sizes, i), BT.DropAt(trees, i), BT.DropAt(sets, i))
  {
    hide Good;
    hide Evolves;
    hide Handle;
    var keep := multiset(BT.DropAt(roots, i));
    forall j | 0 <= j < |roots| - 1
      ensures Handle(lt, m', BT.DropAt(roots, i)[j], BT.DropAt(sizes, i)[j], BT.DropAt(trees, i)[j],
        BT.DropAt(sets, i)[j])
    {
      var k := if j < i then j else j + 1;
      assert BT.DropAt(roots, i)[j] == roots[k];
      HandleEvolves(lt, m, m', keep, roots[k], sizes[k], trees[k], sets[k]);
    }
  }

  /** The parts of the invariant a method needs to open handle `i`. */
  lemma OpenHandle(lt: Lt, m: Mem, roots: seq<Addr>, sizes: seq<int>, trees: seq<BT.BNode>, sets: seq<seq<Row>>, i: nat)
    requires Holds(lt, m, roots, sizes, trees, sets) && i < |roots|
    ensures |roots| == |sizes| == |trees| == |sets|
    ensures Denotes(m.cells, roots[i], trees[i]) && Good(m, multiset(BT.DropAt(roots, i)) + multiset{roots[i]})
    ensures BT.RootShape(trees[i], BT.Height(trees[i])) && BT.Ok(lt, BT.Tree(trees[i], sizes[i]))
    ensures BT.Contents(BT.Tree(trees[i], sizes[i])) == sets[i] && (StrictWeak(lt) ==> BT.Ordered(lt, trees[i]))
  {
    DropAtMultiset(roots, i);
    hide Good;
    hide Denotes;
    assert Handle(lt, m, roots[i], sizes[i], trees[i], sets[i]);
  }

  class Forest {
    const heap: Heap
    var roots: seq<Addr>
    var sizes: seq<int>
    ghost var trees: seq<BT.BNode>
    ghost var sets: seq<seq<Row>>

    constructor (lt: Lt)
      ensures Holds(lt, heap.mem, roots, sizes, trees, sets) && sets == [] && fresh(heap)
    {
      heap := new Heap();
      roots, sizes, trees, sets := [], [], [], [];
    }

    /** `BTree::new` */
    method Create(lt: Lt)
      requires Holds(lt, heap.mem, roots, sizes, trees, sets)
      modifies this, heap
      ensures Holds(lt, heap.mem, roots, sizes, trees, sets) && sets == Step(lt, old(sets), Op.Create)
    {
      hide *;
      ghost var m := heap.mem;
      LeafDenotes(heap.mem.cells, []);
      OpenEmpty(lt, heap.mem, roots, sizes, trees, sets);
      var a := heap.Alloc(SLeaf([]), BT.Leaf([]), multiset(roots));
      EmptyHandle(lt, heap.mem, a);
      HandleAppended(lt, m, heap.mem, roots, sizes, trees, sets, a, 0, BT.Leaf([]), []);
      roots, sizes, trees, sets := roots + [a], sizes + [0], trees + [BT.Leaf([])], sets + [[]];
      Steps(lt, old(sets));
    }

    /** `BTree::fork`: one more reference to the root. */
    method Fork(lt: Lt, i: nat)
      requires Holds(lt, heap.mem, roots, sizes, trees, sets) && i < |roots|
      modifies this, heap
      ensures Holds(lt, heap.mem, roots, sizes, trees, sets) && sets == Step(lt, old(sets), Op.Fork(i))
    {
      hide *;
      ghost var m := heap.mem;
      OpenHandle(lt, m, roots, sizes, trees, sets, i);
      ShareRoot(m, roots, i, trees[i]);
      heap.mem := heap.mem.(cells := Adjust(heap.mem.cells, multiset{roots[i]}, 1));
      SharedHandle(lt, m, heap.mem, roots, sizes, trees, sets, i);
      HandleAppended(lt, m, heap.mem, roots, sizes, trees, sets, roots[i], sizes[i], trees[i], sets[i]);
      roots, sizes, trees, sets := roots + [roots[i]], sizes + [sizes[i]], trees + [trees[i]], sets + [sets[i]];
      Steps(lt, old(sets));
    }

    /** Dropping a tree, a fork or a cursor snapshot. */
    method Release(lt: Lt, i: nat)
      requires Holds(lt, heap.mem, roots, sizes, trees, sets) && i < |roots|
      modifies this, heap
      ensures Holds(lt, heap.mem, roots, sizes, trees, sets) && sets == Step(lt, old(sets), Op.Release(i))
    {
      hide *;
      ghost var m := heap.mem;
      OpenHandle(lt, m, roots, sizes, trees, sets, i);
      heap.Drop(roots[i], trees[i], multiset(BT.DropAt(roots, i)));
      HandleRemoved(lt, m, heap.mem, roots, sizes, trees, sets, i);
      Steps(lt, sets);
      roots, sizes, trees, sets := BT.DropAt(roots, i), BT.DropAt(sizes, i), BT.DropAt(trees, i), BT.DropAt(sets, i);
    }

    /** `BTree::add` through handle `i`: only that handle's set changes. */
    method Add(lt: Lt, i: nat, key: Row) returns (added: bool)
      requires StrictWeak(lt) && Holds(lt, heap.mem, roots, sizes, trees, sets) && i < |roots|
      modifies this, heap
      ensures Holds(lt, heap.mem, roots, sizes, trees, sets) && sets == Step(lt, old(sets), Op.Add(i, key))
      ensures |old(sets)| > i && added == !Hit(lt, old(sets)[i], key)
    {
      hide *;
      ghost var m := heap.mem;
      OpenHandle(lt, m, roots, sizes, trees, sets, i);
      ghost var (t, keep) := (BT.Tree(trees[i], sizes[i]), multiset(BT.DropAt(roots, i)));
      ghost var h := BT.Height(trees[i]);
      var n, home := heap.MakeMut(roots[i], trees[i], keep);
      ghost var m1 := heap.mem;
      var n', o := heap.NodeSet(lt, n, key, trees[i], h, keep);
      ghost var m2 := heap.mem;
      AddUnfolds(lt, t, key, h, m2, n', o);
      var root := InstallRoot(n', o, home, BT.NodeSet(lt, trees[i], key, h), m, m1, keep);
      added := !o.Existed?;
      var size := if added then sizes[i] + 1 else sizes[i];
      BT.AddCorrect(lt, t, key);
      NewHandle(lt, heap.mem, root, size, BT.Add(lt, t, key).0, Insert(lt, sets[i], key));
      HandleReplaced(lt, m, heap.mem, roots, sizes, trees, sets, i, root, size, BT.Add(lt, t, key).0.root,
        Insert(lt, sets[i], key));
      Steps(lt, sets);
      roots, sizes := roots[i := root], sizes[i := size];
      trees, sets := trees[i := BT.Add(lt, t, key).0.root], sets[i := Insert(lt, sets[i], key)];
    }

    /** Put the edited root back, growing a new one if it split. */
    method InstallRoot(n: SNode, o: Outcome, home: Addr, ghost r: (BT.BNode, BT.Outcome), ghost m: Mem, ghost m1: Mem,
                       ghost keep: multiset<Addr>) returns (root: Addr)
      requires NodeDenotes(heap.mem.cells, n, r.0) && OutcomeDenotes(heap.mem.cells, o, r.1)
      requires r.0.keys != [] && (r.1.Split? ==> r.1.right.keys != []) && (o.Split? <==> r.1.Split?)
      requires Good(heap.mem, keep + multiset(Kids(n)) + OutRefs(o))
      requires Evolves(m, m1, keep) && Evolves(m1, heap.mem, keep)
      requires home !in m1.cells && home < m1.next && (home in m.cells || m.next <= home)
      modifies heap
      ensures Denotes(heap.mem.cells, root, BT.Grow(r.0, r.1)) && Good(heap.mem, keep + multiset{root})
      ensures Evolves(m, heap.mem, keep)
    {
      hide *;
      ghost var m2 := heap.mem;
      ghost var keep2 := keep + OutRefs(o);
      HomeFree(m1, m2, keep, home);
      assert keep + multiset(Kids(n)) + OutRefs(o) == keep2 + multiset(Kids(n));
      var leftMax := BT.Last(MaxOf(n, heap.mem.cells, r.0));
      heap.Put(n, home, r.0, keep2);
      FrameLess(m2.cells, heap.mem.cells, keep2, keep);
      EvolvesAround(m, m1, m2, heap.mem, home, keep);
      FrameOutcome(m2.cells, heap.mem.cells, keep2, o, r.1);
      GrowUnfolds(heap.mem.cells, o, r.0, r.1);
      if o.Split? {
        ghost var m3 := heap.mem;
        var rightMax := BT.Last(heap.mem.cells[o.right].node.keys);
        var top := SInternal([leftMax, rightMax], [home, o.right]);
        PairDenotes(heap.mem, home, o.right, leftMax, rightMax, r.0, r.1.right, keep, keep2);
        root := heap.Alloc(top, BT.Grow(r.0, r.1), keep);
        EvolvesTrans(m, m3, heap.mem, keep);
      } else {
        root := home;
        assert keep2 + multiset{home} == keep + multiset{home};
      }
    }

    /** `collapse_root`: while the root has a single child, hold the child instead. */
    method CollapseRoot(a: Addr, ghost t: BT.BNode, ghost keep: multiset<Addr>) returns (root: Addr)
      requires Denotes(heap.mem.cells, a, t) && Good(heap.mem, keep + multiset{a})
      modifies heap
      ensures Denotes(heap.mem.cells, root, BT.Collapse(t)) && Good(heap.mem, keep + multiset{root})
      ensures Evolves(old(heap.mem), heap.mem, keep)
    {
      hide *;
      root := a;
      ghost var cur := t;
      EvolvesRefl(heap.mem, keep);
      AliveIn(heap.mem, keep, root, cur);
      KidsDenote(heap.mem.cells, heap.mem.cells[root].node, cur);
      while heap.mem.cells[root].node.SInternal? && |heap.mem.cells[root].node.kids| == 1
        invariant root in heap.mem.cells && NodeDenotes(heap.mem.cells, heap.mem.cells[root].node, cur)
        invariant Denotes(heap.mem.cells, root, cur) && Good(heap.mem, keep + multiset{root})
        invariant Evolves(old(heap.mem), heap.mem, keep) && BT.Collapse(cur) == BT.Collapse(t)
        decreases cur
      {
        KidsDenote(heap.mem.cells, heap.mem.cells[root].node, cur);
        ghost var m := heap.mem;
        var child := heap.mem.cells[root].node.kids[0];
        ghost var c := cur.children[0];
        BT.CollapseOne(cur);
        HoldChild(heap.mem, keep, root, child);
        heap.mem := heap.mem.(cells := Adjust(heap.mem.cells, multiset{child}, 1));
        ghost var m1 := heap.mem;
        EvolvesOne(m, m1, keep + multiset{root}, root, cur);
        DenotesAdjusted(m, child, c, child);
        assert keep + multiset{root} + multiset{child} == keep + multiset{child} + multiset{root};
        heap.Drop(root, cur, keep + multiset{child});
        EvolvesOne(m1, heap.mem, keep + multiset{child}, child, c);
        EvolvesLess(m, m1, keep + multiset{root}, keep);
        EvolvesLess(m1, heap.mem, keep + multiset{child}, keep);
        EvolvesTrans(m, m1, heap.mem, keep);
        EvolvesTrans(old(heap.mem), m, heap.mem, keep);
        root, cur := child, c;
        AliveIn(heap.mem, keep, root, cur);
      }
      KidsDenote(heap.mem.cells, heap.mem.cells[root].node, cur);
      BT.CollapseStop(cur);
      if heap.mem.cells[root].node.SInternal? && heap.mem.cells[root].node.kids == [] {
        ghost var m := heap.mem;
        heap.Drop(root, cur, keep);
        ghost var m1 := heap.mem;
        LeafDenotes(heap.mem.cells, []);
        assert keep + multiset([]) == keep;
        root := heap.Alloc(SLeaf([]), BT.Leaf([]), keep);
        EvolvesTrans(m, m1, heap.mem, keep);
        EvolvesTrans(old(heap.mem), m, heap.mem, keep);
      }
    }

    /** `BTree::delete` through handle `i`. */
    method Delete(lt: Lt, i: nat, key: Row) returns (removed: bool)
      requires StrictWeak(lt) && Holds(lt, heap.mem, roots, sizes, trees, sets) && i < |roots|
      modifies this, heap
      ensures Holds(lt, heap.mem, roots, sizes, trees, sets) && sets == Step(lt, old(sets), Op.Delete(i, key))
      ensures |old(sets)| > i && removed == Hit(lt, old(sets)[i], key)
    {
      hide *;
      ghost var m := heap.mem;
      OpenHandle(lt, m, roots, sizes, trees, sets, i);
      ghost var (t, keep) := (BT.Tree(trees[i], sizes[i]), multiset(BT.DropAt(roots, i)));
      ghost var h := BT.Height(trees[i]);
      var n, home := heap.MakeMut(roots[i], trees[i], keep);
      ghost var m1 := heap.mem;
      var n', removed' := heap.NodeDelete(lt, n, key, trees[i], h, keep);
      ghost var m2 := heap.mem;
      removed := removed';
      DeleteUnfolds(lt, t, key, h);
      HomeFree(m1, m2, keep, home);
      ghost var t' := BT.NodeDelete(lt, trees[i], key, h).0;
      heap.Put(n', home, t', keep);
      EvolvesAround(m, m1, m2, heap.mem, home, keep);
      var (root, size) := (home, sizes[i]);
      if removed {
        ghost var m3 := heap.mem;
        size := size - 1;
        root := CollapseRoot(home, t', keep);
        EvolvesTrans(m, m3, heap.mem, keep);
      }
      BT.DeleteCorrect(lt, t, key);
      NewHandle(lt, heap.mem, root, size, BT.Delete(lt, t, key).0, Order.Remove(lt, sets[i], key));
      HandleReplaced(lt, m, heap.mem, roots, sizes, trees, sets, i, root, size, BT.Delete(lt, t, key).0.root,
        Order.Remove(lt, sets[i], key));
      Steps(lt, sets);
      roots, sizes := roots[i := root], sizes[i := size];
      trees, sets := trees[i := BT.Delete(lt, t, key).0.root], sets[i := Order.Remove(lt, sets[i], key)];
    }

    method Apply(lt: Lt, op: Op)
      requires StrictWeak(lt) && Holds(lt, heap.mem, roots, sizes, trees, sets)
      modifies this, heap
      ensures Holds(lt, heap.mem, roots, sizes, trees, sets) && sets == Step(lt, old(sets), op)
    {
      hide *;
      SameCount(lt, heap.mem, roots, sizes, trees, sets);
      NoHandle(lt, sets, op);
      match op {
        case Create => Create(lt);
        case Fork(i) => if i < |roots| { Fork(lt, i); }
        case Add(i, key) => if i < |roots| { var _ := Add(lt, i, key); }
        case Delete(i, key) => if i < |roots| { var _ := Delete(lt, i, key); }
        case Release(i) => if i < |roots| { Release(lt, i); }
      }
    }
  }

  /** For every run of creations, forks, writes and drops, the heap's counts stay exact and each
      handle shows exactly the rows of the same run on separate sets. */
  method RunAll(lt: Lt, ops: seq<Op>) returns (f: Forest)
    requires StrictWeak(lt)
    ensures fresh(f) && fresh(f.heap) && Holds(lt, f.heap.mem, f.roots, f.sizes, f.trees, f.sets)
    ensures f.sets == Run(lt, ops)
  {
    f := new Forest(lt);
    for k := 0 to |ops|
      invariant fresh(f) && fresh(f.heap) && Holds(lt, f.heap.mem, f.roots, f.sizes, f.trees, f.sets)
      invariant f.sets == Run(lt, ops[..k])
    {
      assert ops[..k + 1][..k] == ops[..k];
      f.Apply(lt, ops[k]);
    }
    assert ops[..|ops|] == ops;
  }

  lemma SameCount(lt: Lt, m: Mem, roots: seq<Addr>, sizes: seq<int>, trees: seq<BT.BNode>, sets: seq<seq<Row>>)
    requires Holds(lt, m, roots, sizes, trees, sets)
    ensures |roots| == |sets|
  {
  }

  lemma NoHandle(lt: Lt, sets: seq<seq<Row>>, op: Op)
    ensures !op.Create? && op.i >= |sets| ==> Step(lt, sets, op) == sets
  {
  }

  lemma AddUnfolds(lt: Lt, t: BT.Tree, key: Row, h: nat, m: Mem, n: SNode, o: Outcome)
    requires h == BT.Height(t.root) && BT.RootShape(t.root, h)
    requires OutcomeDenotes(m.cells, o, BT.NodeSet(lt, t.root, key, h).1)
    ensures var r := BT.NodeSet(lt, t.root, key, h);
      && r.0.keys != [] && (r.1.Split? ==> r.1.right.keys != []) && (o.Split? <==> r.1.Split?)
      && (o.Existed? <==> r.1.Existed?)
      && BT.Add(lt, t, key) == (BT.Tree(BT.Grow(r.0, r.1), if o.Existed? then t.size else t.size + 1), !o.Existed?)
  {
    hide BT.NodeSet;
    hide Denotes;
  }

  lemma DeleteUnfolds(lt: Lt, t: BT.Tree, key: Row, h: nat)
    requires h == BT.Height(t.root) && BT.RootShape(t.root, h)
    ensures var (n, removed) := BT.NodeDelete(lt, t.root, key, h);
      BT.Delete(lt, t, key) == if removed then (BT.Tree(BT.Collapse(n), t.size - 1), true)
        else (BT.Tree(n, t.size), false)
  {
    hide BT.NodeDelete;
    hide BT.Collapse;
  }

  lemma NewHandle(lt: Lt, m: Mem, root: Addr, size: int, t: BT.Tree, rows: seq<Row>)
    requires Denotes(m.cells, root, t.root) && size == t.size && BT.Ok(lt, t) && BT.Contents(t) == rows
    ensures Handle(lt, m, root, size, t.root, rows)
  {
    assert BT.Tree(t.root, t.size) == t;
  }

  function MaxOf(n: SNode, ghost s: Store, ghost t: BT.BNode): (keys: seq<Row>)
    requires NodeDenotes(s, n, t) && t.keys != []
    ensures keys == t.keys
  {
    n.keys
  }

  lemma GrowUnfolds(s: Store, o: Outcome, left: BT.BNode, o': BT.Outcome)
    requires OutcomeDenotes(s, o, o') && left.keys != [] && (o'.Split? ==> o'.right.keys != [])
    requires o.Split? <==> o'.Split?
    ensures !o.Split? ==> BT.Grow(left, o') == left && OutRefs(o) == multiset{}
    ensures o.Split? ==>
      && BT.Grow(left, o') == BT.Internal([BT.Last(left.keys), BT.Last(o'.right.keys)], [left, o'.right])
      && OutRefs(o) == multiset{o.right} && Denotes(s, o.right, o'.right)
      && o.right in s && s[o.right].node.keys == o'.right.keys
  {
    if o.Split? { assert NodeDenotes(s, s[o.right].node, o'.right); }
  }

  lemma PairDenotes(m: Mem, a: Addr, b: Addr, ka: Row, kb: Row, ta: BT.BNode, tb: BT.BNode, keep: multiset<Addr>,
      keep2: multiset<Addr>)
    requires Denotes(m.cells, a, ta) && Denotes(m.cells, b, tb) && keep2 == keep + multiset{b}
    requires Good(m, keep2 + multiset{a})
    ensures NodeDenotes(m.cells, SInternal([ka, kb], [a, b]), BT.Internal([ka, kb], [ta, tb]))
    ensures Good(m, keep + multiset(Kids(SInternal([ka, kb], [a, b]))))
  {
    hide Good;
    assert multiset([a, b]) == multiset{a} + multiset{b};
    assert keep2 + multiset{a} == keep + multiset([a, b]);
  }

  lemma HoldChild(m: Mem, keep: multiset<Addr>, root: Addr, child: Addr)
    requires Good(m, keep + multiset{root}) && root in m.cells && m.cells[root].node.SInternal?
    requires m.cells[root].node.kids == [child]
    ensures var m' := m.(cells := Adjust(m.cells, multiset{child}, 1));
      Good(m', keep + multiset{root} + multiset{child}) && Evolves(m, m', keep + multiset{root})
  {
    assert multiset([child]) == multiset{child};
    CloneKids(m, keep + multiset{root}, root);
  }

  lemma DenotesAdjusted(m: Mem, a: Addr, t: BT.BNode, child: Addr)
    requires Denotes(m.cells, a, t)
    ensures Denotes(Adjust(m.cells, multiset{child}, 1), a, t)
  {
    DenotesGrow(m.cells, Adjust(m.cells, multiset{child}, 1), a, t);
  }

  lemma Steps(lt: Lt, sets: seq<seq<Row>>)
    ensures Step(lt, sets, Create) == sets + [[]]
    ensures forall i: nat :: i < |sets| ==> Step(lt, sets, Fork(i)) == sets + [sets[i]]
    ensures forall i: nat, key :: i < |sets| ==> Step(lt, sets, Add(i, key)) == sets[i := Insert(lt, sets[i], key)]
    ensures forall i: nat, key :: i < |sets| ==>
      Step(lt, sets, Delete(i, key)) == sets[i := Order.Remove(lt, sets[i], key)]
    ensures forall i: nat :: i < |sets| ==> Step(lt, sets, Release(i)) == BT.DropAt(sets, i)
  {
  }

  lemma OpenEmpty(lt: Lt, m: Mem, roots: seq<Addr>, sizes: seq<int>, trees: seq<BT.BNode>, sets: seq<seq<Row>>)
    requires Holds(lt, m, roots, sizes, trees, sets)
    ensures Good(m, multiset(roots) + multiset(Kids(SLeaf([]))))
  {
    assert multiset(roots) + multiset([]) == multiset(roots);
  }

  lemma EmptyHandle(lt: Lt, m: Mem, a: Addr)
    requires Denotes(m.cells, a, BT.Leaf([]))
    ensures Handle(lt, m, a, 0, BT.Leaf([]), [])
  {
  }

  lemma ShareRoot(m: Mem, roots: seq<Addr>, i: nat, t: BT.BNode)
    requires i < |roots| && Good(m, multiset(BT.DropAt(roots, i)) + multiset{roots[i]}) && Denotes(m.cells, roots[i], t)
    ensures var m' := m.(cells := Adjust(m.cells, multiset{roots[i]}, 1));
      Good(m', multiset(roots) + multiset{roots[i]}) && Evolves(m, m', multiset(roots))
  {
    DropAtMultiset(roots, i);
    Retain(m.cells, multiset(roots), multiset{roots[i]});
  }

  lemma SharedHandle(lt: Lt, m: Mem, m': Mem, roots: seq<Addr>, sizes: seq<int>, trees: seq<BT.BNode>,
      sets: seq<seq<Row>>, i: nat)
    requires Holds(lt, m, roots, sizes, trees, sets) && i < |roots| && Evolves(m, m', multiset(roots))
    ensures Handle(lt, m', roots[i], sizes[i], trees[i], sets[i])
  {
    hide Evolves;
    hide Handle;
    HandleEvolves(lt, m, m', multiset(roots), roots[i], sizes[i], trees[i], sets[i]);
  }
}
