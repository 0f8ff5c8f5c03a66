/** Copy-on-write as the source runs it: nodes live in a heap with explicit reference counts
    (`Rc<BNode>`), and `Rc::make_mut` edits a node in place when its count is one and clones it
    otherwise.

    A node being edited is taken out of the heap and put back afterwards: at its own address
    when it was unshared (so the edit is in place), at a fresh address when it was cloned. */
module CowStore {
  import opened Values
  import opened Order
  import BT = BTree

  type Addr = nat

  datatype SNode = SLeaf(keys: seq<Row>) | SInternal(keys: seq<Row>, kids: seq<Addr>)

  datatype Cell = Cell(rc: int, node: SNode)

  type Store = map<Addr, Cell>

  function Kids(n: SNode): seq<Addr> {
    if n.SInternal? then n.kids else []
  }

  /** Address `a` holds the tree `t`. */
  ghost predicate Denotes(s: Store, a: Addr, t: BT.BNode)
    decreases t, 1
  {
    a in s && NodeDenotes(s, s[a].node, t)
  }

  ghost predicate NodeDenotes(s: Store, n: SNode, t: BT.BNode)
    decreases t, 0
  {
    && n.keys == t.keys
    && (n.SLeaf? <==> t.Leaf?)
    && (n.SInternal? ==>
          && |n.kids| == |t.children|
          && forall i :: 0 <= i < |n.kids| ==> Denotes(s, n.kids[i], t.children[i]))
  }

  /** All references held by nodes of the heap. */
  ghost function Refs(s: Store): multiset<Addr>
    decreases |s|
  {
    if s == map[] then multiset{}
    else
      var a :| a in s;
      multiset(Kids(s[a].node)) + Refs(s - {a})
  }

  /** Counts are exact: every count is the number of references from outside (`ext`) and from
      nodes, nothing unreferenced is kept, and no reference dangles. */
  ghost predicate Exact(s: Store, ext: multiset<Addr>) {
    Counts(s, ext, Refs(s))
  }

  ghost predicate Counts(s: Store, ext: multiset<Addr>, refs: multiset<Addr>) {
    && (forall a :: a in s ==> s[a].rc == ext[a] + refs[a] && s[a].rc >= 1)
    && (forall a :: a in ext ==> a in s)
    && (forall a :: a in refs ==> a in s)
  }

  /** Everything the references in `keep` denote is still denoted. */
  ghost predicate Frame(s: Store, s': Store, keep: multiset<Addr>) {
    forall b, t :: b in keep && Denotes(s, b, t) ==> Denotes(s', b, t)
  }

  // ---- counting references ----

  lemma RefsPick(s: Store) returns (a: Addr)
    requires s != map[]
    ensures a in s && Refs(s) == multiset(Kids(s[a].node)) + Refs(s - {a})
  {
    a :| a in s && Refs(s) == multiset(Kids(s[a].node)) + Refs(s - {a});
  }

  lemma {:induction false} RefsRemove(s: Store, a: Addr)
    requires a in s
    ensures Refs(s) == multiset(Kids(s[a].node)) + Refs(s - {a})
    decreases |s|
  {
    hide Refs;
    hide Kids;
    var b := RefsPick(s);
    if a != b {
      RefsRemove(s - {b}, a);
      RefsRemove(s - {a}, b);
      assert s - {b} - {a} == s - {a} - {b};
    }
  }

  lemma RefsAdd(s: Store, a: Addr, c: Cell)
    requires a !in s
    ensures Refs(s[a := c]) == multiset(Kids(c.node)) + Refs(s)
  {
    RefsRemove(s[a := c], a);
    assert s[a := c] - {a} == s;
  }

  /** References depend on the nodes only, not on the counts. */
  lemma {:induction false} RefsSame(s: Store, s': Store)
    requires s.Keys == s'.Keys && forall a :: a in s ==> s[a].node == s'[a].node
    ensures Refs(s) == Refs(s')
    decreases |s|
  {
    if s != map[] {
      var a :| a in s;
      RefsRemove(s, a);
      RefsRemove(s', a);
      RefsSame(s - {a}, s' - {a});
    }
  }

  lemma RefsMember(s: Store, a: Addr, i: nat)
    requires a in s && i < |Kids(s[a].node)|
    ensures Kids(s[a].node)[i] in Refs(s)
  {
    RefsRemove(s, a);
  }

  // ---- what a heap change does to the trees in it ----

  /** Changing counts, or adding nodes, changes no tree. */
  lemma {:induction false} DenotesGrow(s: Store, s': Store, a: Addr, t: BT.BNode)
    requires Denotes(s, a, t)
    requires forall b :: b in s ==> b in s' && s'[b].node == s[b].node
    ensures Denotes(s', a, t)
    decreases t
  {
    var n := s[a].node;
    if n.SInternal? {
      forall i | 0 <= i < |n.kids| ensures Denotes(s', n.kids[i], t.children[i]) {
        DenotesGrow(s, s', n.kids[i], t.children[i]);
      }
    }
  }

  /** Removing an unreferenced node changes no other tree. */
  lemma {:induction false} DenotesRemove(s: Store, gone: Addr, a: Addr, t: BT.BNode)
    requires Denotes(s, a, t) && a != gone && gone in s && gone !in Refs(s)
    ensures Denotes(s - {gone}, a, t)
    decreases t
  {
    var n := s[a].node;
    if n.SInternal? {
      forall i | 0 <= i < |n.kids| ensures Denotes(s - {gone}, n.kids[i], t.children[i]) {
        RefsMember(s, a, i);
        DenotesRemove(s, gone, n.kids[i], t.children[i]);
      }
    }
  }

  lemma {:induction false} NodeDenotesRemove(s: Store, gone: Addr, n: SNode, t: BT.BNode)
    requires NodeDenotes(s, n, t) && gone in s && gone !in Refs(s) && gone !in Kids(n)
    ensures NodeDenotes(s - {gone}, n, t)
  {
    if n.SInternal? {
      forall i | 0 <= i < |n.kids| ensures Denotes(s - {gone}, n.kids[i], t.children[i]) {
        DenotesRemove(s, gone, n.kids[i], t.children[i]);
      }
    }
  }

  lemma {:induction false} NodeDenotesGrow(s: Store, s': Store, n: SNode, t: BT.BNode)
    requires NodeDenotes(s, n, t)
    requires forall b :: b in s ==> b in s' && s'[b].node == s[b].node
    ensures NodeDenotes(s', n, t)
  {
    if n.SInternal? {
      forall i | 0 <= i < |n.kids| ensures Denotes(s', n.kids[i], t.children[i]) {
        DenotesGrow(s, s', n.kids[i], t.children[i]);
      }
    }
  }

  lemma FrameGrow(s: Store, s': Store, keep: multiset<Addr>)
    requires forall b :: b in s ==> b in s' && s'[b].node == s[b].node
    ensures Frame(s, s', keep)
  {
    forall b, t | Denotes(s, b, t) ensures Denotes(s', b, t) { DenotesGrow(s, s', b, t); }
  }

  /** An address denotes at most one tree. */
  lemma {:induction false} DenotesUnique(s: Store, a: Addr, t: BT.BNode, u: BT.BNode)
    requires Denotes(s, a, t) && Denotes(s, a, u)
    ensures t == u
    decreases t
  {
    var n := s[a].node;
    if n.SInternal? {
      forall i | 0 <= i < |n.kids| ensures t.children[i] == u.children[i] {
        DenotesUnique(s, n.kids[i], t.children[i], u.children[i]);
      }
    }
  }

  // ---- the primitive steps ----

  /** `count` more (or fewer) references per address. */
  function Adjust(s: Store, d: multiset<Addr>, sign: int): Store {
    map a | a in s :: s[a].(rc := s[a].rc + sign * d[a])
  }

  /** `Rc::clone` of several references. */
  lemma {:induction false} Retain(s: Store, ext: multiset<Addr>, d: multiset<Addr>)
    requires Exact(s, ext) && (forall a :: a in d ==> a in s)
    ensures Exact(Adjust(s, d, 1), ext + d)
    ensures Frame(s, Adjust(s, d, 1), ext)
  {
    hide Denotes;
    hide Refs;
    RefsSame(s, Adjust(s, d, 1));
    FrameGrow(s, Adjust(s, d, 1), ext);
  }

  /** Dropping one of several references. */
  lemma {:induction false} ReleaseShared(s: Store, ext: multiset<Addr>, a: Addr)
    requires Exact(s, ext) && a in ext && s[a].rc > 1
    ensures Exact(Adjust(s, multiset{a}, -1), ext - multiset{a})
    ensures Frame(s, Adjust(s, multiset{a}, -1), ext - multiset{a})
  {
    hide Denotes;
    hide Refs;
    RefsSame(s, Adjust(s, multiset{a}, -1));
    FrameGrow(s, Adjust(s, multiset{a}, -1), ext - multiset{a});
  }

  /** A shared node is cloned: its references are bumped and the original loses one. */
  function Cloned(s: Store, a: Addr): Store
    requires a in s
  {
    Adjust(Adjust(s, multiset{a}, -1), multiset(Kids(s[a].node)), 1)
  }

  lemma {:induction false} TakeShared(s: Store, ext: multiset<Addr>, a: Addr)
    requires Exact(s, ext) && a in ext && s[a].rc > 1
    ensures Exact(Cloned(s, a), ext - multiset{a} + multiset(Kids(s[a].node)))
    ensures Frame(s, Cloned(s, a), ext - multiset{a})
    ensures forall t :: Denotes(s, a, t) ==> NodeDenotes(Cloned(s, a), s[a].node, t)
  {
    ReleaseShared(s, ext, a);
    KidsStored(s, ext, a);
    Retain(Adjust(s, multiset{a}, -1), ext - multiset{a}, multiset(Kids(s[a].node)));
    hide Exact;
    hide Frame;
    hide Kids;
    FrameGrow(s, Cloned(s, a), ext - multiset{a});
    forall t | Denotes(s, a, t) ensures NodeDenotes(Cloned(s, a), s[a].node, t) {
      NodeDenotesGrow(s, Cloned(s, a), s[a].node, t);
    }
  }

  lemma KidsStored(s: Store, ext: multiset<Addr>, a: Addr)
    requires Exact(s, ext) && a in s
    ensures forall b :: b in Kids(s[a].node) ==> b in s
  {
    RefsRemove(s, a);
  }

  lemma CountsTaken(s: Store, ext: multiset<Addr>, refs: multiset<Addr>, a: Addr, k: multiset<Addr>, r: multiset<Addr>)
    requires Counts(s, ext, refs) && a in ext && a in s && s[a].rc == 1 && refs == k + r
    ensures ext[a] == 1 && refs[a] == 0 && k[a] == 0 && r[a] == 0
    ensures Counts(s - {a}, ext - multiset{a} + k, r)
  {
    assert s[a].rc == ext[a] + refs[a];
    var ext' := ext - multiset{a} + k;
    assert forall b :: b != a ==> ext'[b] == ext[b] + k[b];
    assert forall b :: refs[b] == k[b] + r[b];
    assert forall b :: b in ext' ==> b in ext || b in refs;
  }

  lemma {:induction false} CountsTake(s: Store, ext: multiset<Addr>, a: Addr)
    requires Exact(s, ext) && a in ext && s[a].rc == 1
    ensures Exact(s - {a}, ext - multiset{a} + multiset(Kids(s[a].node)))
    ensures a !in Refs(s) && a !in Kids(s[a].node) && ext[a] == 1
  {
    RefsRemove(s, a);
    CountsTaken(s, ext, Refs(s), a, multiset(Kids(s[a].node)), Refs(s - {a}));
    hide Refs;
    hide Kids;
    hide Counts;
  }

  /** Taking out an unshared node hands its references to the taker. */
  lemma {:induction false} TakeUnique(s: Store, ext: multiset<Addr>, a: Addr)
    requires Exact(s, ext) && a in ext && s[a].rc == 1
    ensures Exact(s - {a}, ext - multiset{a} + multiset(Kids(s[a].node)))
    ensures Frame(s, s - {a}, ext - multiset{a})
    ensures forall t :: Denotes(s, a, t) ==> NodeDenotes(s - {a}, s[a].node, t)
  {
    CountsTake(s, ext, a);
    hide Exact;
    hide Refs;
    forall b, t | b in ext - multiset{a} && Denotes(s, b, t) ensures Denotes(s - {a}, b, t) {
      DenotesRemove(s, a, b, t);
    }
    forall t | Denotes(s, a, t) ensures NodeDenotes(s - {a}, s[a].node, t) {
      NodeDenotesRemove(s, a, s[a].node, t);
    }
  }

  lemma {:induction false} CountsPut(s: Store, keep: multiset<Addr>, a: Addr, n: SNode)
    requires Exact(s, keep + multiset(Kids(n))) && a !in s
    ensures Exact(s[a := Cell(1, n)], keep + multiset{a})
  {
    hide *;
    RefsAdd(s, a, Cell(1, n));
    ExactIs(s, keep + multiset(Kids(n)));
    ExactIs(s[a := Cell(1, n)], keep + multiset{a});
    PutCounts(s, keep, multiset(Kids(n)), Refs(s), a, n);
  }

  lemma ExactIs(s: Store, ext: multiset<Addr>)
    ensures Exact(s, ext) <==> Counts(s, ext, Refs(s))
  {
  }

  lemma {:induction false} PutCounts(s: Store, keep: multiset<Addr>, k: multiset<Addr>, r: multiset<Addr>, a: Addr,
      n: SNode)
    requires Counts(s, keep + k, r) && a !in s
    ensures Counts(s[a := Cell(1, n)], keep + multiset{a}, k + r)
  {
    assert a !in keep + k && a !in r;
    forall b | b in s ensures s[b].rc == keep[b] + k[b] + r[b] && s[b].rc >= 1 { }
    forall b | b in keep + multiset{a} ensures b == a || b in s { if b != a { assert b in keep + k; } }
    forall b | b in k + r ensures b in s { assert b in keep + k || b in r; }
  }

  /** Putting an edited node back at a free address. */
  lemma {:induction false} PutBack(s: Store, keep: multiset<Addr>, a: Addr, n: SNode)
    requires Exact(s, keep + multiset(Kids(n))) && a !in s
    ensures Exact(s[a := Cell(1, n)], keep + multiset{a})
    ensures Frame(s, s[a := Cell(1, n)], keep)
    ensures forall t :: NodeDenotes(s, n, t) ==> Denotes(s[a := Cell(1, n)], a, t)
  {
    var s' := s[a := Cell(1, n)];
    CountsPut(s, keep, a, n);
    hide Exact;
    FrameGrow(s, s', keep);
    forall t | NodeDenotes(s, n, t) ensures Denotes(s', a, t) { NodeDenotesGrow(s, s', n, t); }
  }

  // ---- the heap and `Rc::make_mut` ----

  datatype Mem = Mem(cells: Store, next: Addr)

  /** Exact counts, and the allocation mark lies above every address in use. */
  ghost predicate Good(m: Mem, ext: multiset<Addr>) {
    Exact(m.cells, ext) && forall a :: a in m.cells ==> a < m.next
  }

  /** The references in `keep` still denote what they did, and only new addresses appear. */
  ghost predicate Evolves(m: Mem, m': Mem, keep: multiset<Addr>) {
    && Frame(m.cells, m'.cells, keep)
    && m.next <= m'.next
    && forall a :: a in m'.cells ==> a in m.cells || m.next <= a
  }

  lemma EvolvesRefl(m: Mem, keep: multiset<Addr>)
    ensures Evolves(m, m, keep)
  {
  }

  lemma EvolvesTrans(m: Mem, m1: Mem, m2: Mem, keep: multiset<Addr>)
    requires Evolves(m, m1, keep) && Evolves(m1, m2, keep)
    ensures Evolves(m, m2, keep)
  {
    hide Denotes;
  }

  lemma EvolvesLess(m: Mem, m1: Mem, keep: multiset<Addr>, less: multiset<Addr>)
    requires Evolves(m, m1, keep) && less <= keep
    ensures Evolves(m, m1, less)
  {
    hide Denotes;
  }

  /** Taking a node out, working on it, and putting it back. */
  lemma EvolvesAround(m: Mem, m1: Mem, m2: Mem, m3: Mem, home: Addr, keep: multiset<Addr>)
    requires Evolves(m, m1, keep) && Evolves(m1, m2, keep) && Frame(m2.cells, m3.cells, keep)
    requires m3.cells.Keys == m2.cells.Keys + {home} && m3.next == m2.next
    requires home in m.cells || m.next <= home
    ensures Evolves(m, m3, keep)
  {
    hide Denotes;
  }

  lemma DropAtMultiset(s: seq<Addr>, i: nat)
    requires i < |s|
    ensures multiset(s) == multiset(BT.DropAt(s, i)) + multiset{s[i]}
    ensures forall j :: 0 <= j < |s| && j != i ==> s[j] in BT.DropAt(s, i)
  {
    var d := BT.DropAt(s, i);
    assert s == s[..i] + [s[i]] + s[i + 1..];
    forall j | 0 <= j < |s| && j != i ensures s[j] in d {
      assert s[j] == if j < i then d[j] else d[j - 1];
    }
  }

  datatype Outcome = Existed | Inserted | Split(right: Addr)

  ghost predicate OutcomeDenotes(s: Store, o: Outcome, o': BT.Outcome) {
    match o'
    case Existed => o.Existed?
    case Inserted => o.Inserted?
    case Split(r) => o.Split? && Denotes(s, o.right, r)
  }

  ghost function OutRefs(o: Outcome): multiset<Addr> {
    if o.Split? then multiset{o.right} else multiset{}
  }

  /** Every kid but the `i`-th denotes the child at its place. */
  ghost predicate OtherKids(s: Store, n: SNode, t: BT.BNode, i: nat) {
    && n.SInternal? && t.Internal? && n.keys == t.keys && |n.keys| == |n.kids| == |t.children| && i < |n.kids|
    && forall j :: 0 <= j < |n.kids| && j != i ==> Denotes(s, n.kids[j], t.children[j])
  }

  /** Splicing one or two children over the `i`-th keeps the correspondence. */
  lemma {:induction false} SpliceDenotes(s: Store, n: SNode, t: BT.BNode, i: nat, keys: seq<Row>, mid: seq<Addr>,
      mid': seq<BT.BNode>)
    requires OtherKids(s, n, t, i) && |mid| == |mid'|
    requires forall j :: 0 <= j < |mid| ==> Denotes(s, mid[j], mid'[j])
    ensures NodeDenotes(s, SInternal(keys, BT.Splice(n.kids, i, mid)),
      BT.Internal(keys, BT.Splice(t.children, i, mid')))
  {
    var (k, c) := (n.kids[..i] + mid + n.kids[i + 1..], t.children[..i] + mid' + t.children[i + 1..]);
    forall j | 0 <= j < |k| ensures Denotes(s, k[j], c[j]) {
      if j >= i + |mid| { assert k[j] == n.kids[j - |mid| + 1] && c[j] == t.children[j - |mid| + 1]; }
    }
  }

  /** The two halves of a node. */
  lemma {:induction false} HalvesDenote(s: Store, n: SNode, t: BT.BNode, mid: nat)
    requires NodeDenotes(s, n, t) && n.SInternal? && mid <= |n.kids| && |n.keys| == |n.kids|
    ensures NodeDenotes(s, SInternal(n.keys[..mid], n.kids[..mid]), BT.Internal(t.keys[..mid], t.children[..mid]))
    ensures NodeDenotes(s, SInternal(n.keys[mid..], n.kids[mid..]), BT.Internal(t.keys[mid..], t.children[mid..]))
    ensures multiset(n.kids) == multiset(n.kids[..mid]) + multiset(n.kids[mid..])
  {
    assert n.kids == n.kids[..mid] + n.kids[mid..];
  }

  lemma {:induction false} SpliceMultiset(kids: seq<Addr>, i: nat, mid: seq<Addr>)
    requires i < |kids|
    ensures multiset(BT.Splice(kids, i, mid)) == multiset(BT.DropAt(kids, i)) + multiset(mid)
  {
  }

  lemma UpdateIsSplice<T>(s: seq<T>, i: nat, x: T)
    requires i < |s|
    ensures s[i := x] == BT.Splice(s, i, [x])
  {
  }

  /** The reference bag of a node whose `i`-th reference became `mid`. */
  lemma {:induction false} SpliceRefs(keep: multiset<Addr>, kids: seq<Addr>, i: nat, mid: seq<Addr>,
      bag: multiset<Addr>)
    requires i < |kids| && bag == multiset(mid)
    ensures keep + multiset(BT.DropAt(kids, i)) + bag == keep + multiset(BT.Splice(kids, i, mid))
  {
    SpliceMultiset(kids, i, mid);
  }

  class Heap {
    var mem: Mem

    constructor ()
      ensures mem == Mem(map[], 0) && Good(mem, multiset{})
    {
      mem := Mem(map[], 0);
    }

    /** `Rc::make_mut`: clone exactly when the count exceeds one. */
    method MakeMut(a: Addr, ghost t: BT.BNode, ghost keep: multiset<Addr>) returns (n: SNode, home: Addr)
      requires Good(mem, keep + multiset{a}) && Denotes(mem.cells, a, t)
      modifies this
      ensures Good(mem, keep + multiset(Kids(n))) && Evolves(old(mem), mem, keep)
      ensures NodeDenotes(mem.cells, n, t)
      ensures home !in mem.cells && home < mem.next && (home in old(mem).cells || old(mem).next <= home)
      ensures a in old(mem).cells && (home == a <==> old(mem).cells[a].rc == 1)
      ensures a in mem.cells <==> old(mem).cells[a].rc > 1
    {
      ghost var m0 := mem;
      assert keep + multiset{a} - multiset{a} == keep;
      n := mem.cells[a].node;
      hide Denotes;
      hide NodeDenotes;
      hide Refs;
      if mem.cells[a].rc == 1 {
        TakeUnique(mem.cells, keep + multiset{a}, a);
        mem := mem.(cells := mem.cells - {a});
        home := a;
      } else {
        TakeShared(mem.cells, keep + multiset{a}, a);
        home := mem.next;
        mem := Mem(Cloned(mem.cells, a), mem.next + 1);
      }
      hide Exact;
    }

    /** Put an edited node at its home. */
    method Put(n: SNode, home: Addr, ghost t: BT.BNode, ghost keep: multiset<Addr>)
      requires Good(mem, keep + multiset(Kids(n))) && home !in mem.cells && home < mem.next
      requires NodeDenotes(mem.cells, n, t)
      modifies this
      ensures Good(mem, keep + multiset{home}) && Frame(old(mem).cells, mem.cells, keep)
      ensures Denotes(mem.cells, home, t)
      ensures mem.cells.Keys == old(mem).cells.Keys + {home} && mem.next == old(mem).next
    {
      PutBack(mem.cells, keep, home, n);
      hide Exact;
      hide Denotes;
      hide NodeDenotes;
      mem := mem.(cells := mem.cells[home := Cell(1, n)]);
    }

    /** `Rc::new` */
    method Alloc(n: SNode, ghost t: BT.BNode, ghost keep: multiset<Addr>) returns (a: Addr)
      requires Good(mem, keep + multiset(Kids(n))) && NodeDenotes(mem.cells, n, t)
      modifies this
      ensures Good(mem, keep + multiset{a}) && Evolves(old(mem), mem, keep) && Denotes(mem.cells, a, t)
    {
      PutBack(mem.cells, keep, mem.next, n);
      hide Exact;
      hide Denotes;
      hide NodeDenotes;
      a := mem.next;
      mem := Mem(mem.cells[a := Cell(1, n)], a + 1);
    }

    /** The leaf arm of `node_set`. */
    method LeafSet(lt: Lt, keys: seq<Row>, key: Row, ghost keep: multiset<Addr>) returns (n: SNode, o: Outcome)
      requires Good(mem, keep) && StrictWeak(lt) && Sorted(lt, keys)
      modifies this
      ensures n.SLeaf? && n.keys == BT.LeafSet(lt, keys, key).0.keys && BT.LeafSet(lt, keys, key).0.Leaf?
      ensures OutcomeDenotes(mem.cells, o, BT.LeafSet(lt, keys, key).1)
      ensures Good(mem, keep + OutRefs(o)) && Evolves(old(mem), mem, keep)
    {
      assert keep + multiset{} == keep;
      var i, found := BT.Search(lt, keys, key);
      if found {
        return SLeaf(keys[i := key]), Existed;
      }
      var ks := keys[..i] + [key] + keys[i..];
      if |ks| <= BT.MAX_NODE_SIZE {
        return SLeaf(ks), Inserted;
      }
      var mid := |ks| / 2;
      var r := Alloc(SLeaf(ks[mid..]), BT.Leaf(ks[mid..]), keep);
      return SLeaf(ks[..mid]), Split(r);
    }

    /** The internal arm of `node_set` after the child is back at `home`. */
    method Graft(n: SNode, i: nat, home: Addr, o: Outcome, ghost t: BT.BNode, ghost child: BT.BNode,
        ghost co: BT.Outcome, ghost keep: multiset<Addr>)
      returns (n': SNode, o': Outcome)
      requires OtherKids(mem.cells, n, t, i) && Denotes(mem.cells, home, child) && OutcomeDenotes(mem.cells, o, co)
      requires child.keys != [] && (co.Split? ==> co.right.keys != [])
      requires Good(mem, keep + multiset(BT.DropAt(n.kids, i)) + multiset{home} + OutRefs(o))
      modifies this
      ensures NodeDenotes(mem.cells, n', BT.Graft(t, i, child, co).0)
      ensures OutcomeDenotes(mem.cells, o', BT.Graft(t, i, child, co).1)
      ensures Good(mem, keep + multiset(Kids(n')) + OutRefs(o')) && Evolves(old(mem), mem, keep)
    {
      hide BT.Splice;
      hide BT.DropAt;
      hide Counts;
      hide Frame;
      var childMax := BT.Last(mem.cells[home].node.keys);
      if o.Split? {
        n', o' := GraftSplit(n, i, home, o.right, childMax, t, child, co.right, keep);
      } else {
        n', o' := SInternal(n.keys[i := childMax], n.kids[i := home]), o;
        UpdateIsSplice(n.kids, i, home);
        UpdateIsSplice(t.children, i, child);
        SpliceDenotes(mem.cells, n, t, i, n.keys[i := childMax], [home], [child]);
        SpliceRefs(keep, n.kids, i, [home], multiset{home});
        EvolvesRefl(mem, keep);
        hide Good;
        hide Evolves;
        hide Denotes;
      }
    }

    method GraftSplit(n: SNode, i: nat, home: Addr, right: Addr, childMax: Row,
                      ghost t: BT.BNode, ghost child: BT.BNode, ghost right': BT.BNode, ghost keep: multiset<Addr>)
      returns (n': SNode, o': Outcome)
      requires OtherKids(mem.cells, n, t, i) && Denotes(mem.cells, home, child) && Denotes(mem.cells, right, right')
      requires child.keys != [] && right'.keys != [] && childMax == BT.MaxKey(child)
      requires Good(mem, keep + multiset(BT.DropAt(n.kids, i)) + multiset{home} + multiset{right})
      modifies this
      ensures NodeDenotes(mem.cells, n', BT.Graft(t, i, child, BT.Split(right')).0)
      ensures OutcomeDenotes(mem.cells, o', BT.Graft(t, i, child, BT.Split(right')).1)
      ensures Good(mem, keep + multiset(Kids(n')) + OutRefs(o')) && Evolves(old(mem), mem, keep)
    {
      hide BT.Graft;
      hide BT.Halve;
      hide BT.Splice;
      hide BT.DropAt;
      hide Counts;
      hide Frame;
      var rightMax := BT.Last(mem.cells[right].node.keys);
      BT.GraftSplits(t, i, child, right');
      SpliceDenotes(mem.cells, n, t, i, BT.Splice(n.keys, i, [childMax, rightMax]), [home, right], [child, right']);
      hide Good;
      hide Denotes;
      SpliceRefs(keep, n.kids, i, [home, right], multiset{home, right});
      assert keep + multiset(BT.DropAt(n.kids, i)) + multiset{home} + multiset{right}
          == keep + multiset(BT.DropAt(n.kids, i)) + multiset{home, right};
      n', o' := Halve(BT.Splice(n.keys, i, [childMax, rightMax]), BT.Splice(n.kids, i, [home, right]),
                      BT.Splice(t.children, i, [child, right']), keep);
    }

    method Halve(keys: seq<Row>, kids: seq<Addr>, ghost children: seq<BT.BNode>, ghost keep: multiset<Addr>)
      returns (n': SNode, o': Outcome)
      requires |keys| == |kids| && NodeDenotes(mem.cells, SInternal(keys, kids), BT.Internal(keys, children))
      requires Good(mem, keep + multiset(kids))
      modifies this
      ensures NodeDenotes(mem.cells, n', BT.Halve(keys, children).0)
      ensures OutcomeDenotes(mem.cells, o', BT.Halve(keys, children).1)
      ensures Good(mem, keep + multiset(Kids(n')) + OutRefs(o')) && Evolves(old(mem), mem, keep)
    {
      hide Good;
      hide Denotes;
      if |kids| <= BT.MAX_NODE_SIZE {
        n', o' := SInternal(keys, kids), Inserted;
        assert keep + multiset(kids) + multiset{} == keep + multiset(kids);
        return;
      }
      var mid := |kids| / 2;
      HalvesDenote(mem.cells, SInternal(keys, kids), BT.Internal(keys, children), mid);
      ghost var keep' := keep + multiset(kids[..mid]);
      assert keep + multiset(kids) == keep' + multiset(kids[mid..]);
      ghost var m0 := mem;
      var upper := SInternal(keys[mid..], kids[mid..]);
      var r := Alloc(upper, BT.Internal(keys[mid..], children[mid..]), keep');
      n', o' := SInternal(keys[..mid], kids[..mid]), Split(r);
      EvolvesLess(m0, mem, keep', keep);
      FrameNode(m0.cells, mem.cells, keep', n', BT.Internal(keys[..mid], children[..mid]));
    }

    /** `node_set` on the heap: the child is made unique, edited, and put back. */
    method NodeSet(lt: Lt, n: SNode, key: Row, ghost t: BT.BNode, ghost h: nat, ghost keep: multiset<Addr>)
      returns (n': SNode, o: Outcome)
      requires BT.RootShape(t, h) && NodeDenotes(mem.cells, n, t) && Good(mem, keep + multiset(Kids(n)))
      requires BT.Ordered(lt, t)
      modifies this
      ensures NodeDenotes(mem.cells, n', BT.NodeSet(lt, t, key, h).0)
      ensures OutcomeDenotes(mem.cells, o, BT.NodeSet(lt, t, key, h).1)
      ensures Good(mem, keep + multiset(Kids(n')) + OutRefs(o)) && Evolves(old(mem), mem, keep)
      decreases h, 2
    {
      assert n.SLeaf? <==> h == 0;
      BT.OrderedKeys(lt, t, h);
      if n.SLeaf? {
        n', o := LeafSet(lt, n.keys, key, keep);
      } else {
        n', o := InternalSet(lt, n, key, t, h, keep);
      }
    }

    method InternalSet(lt: Lt, n: SNode, key: Row, ghost t: BT.BNode, ghost h: nat, ghost keep: multiset<Addr>)
      returns (n': SNode, o: Outcome)
      requires h > 0 && BT.Shape(t, h) && BT.RootShape(t, h) && BT.Ordered(lt, t)
      requires NodeDenotes(mem.cells, n, t) && Good(mem, keep + multiset(Kids(n)))
      modifies this
      ensures NodeDenotes(mem.cells, n', BT.NodeSet(lt, t, key, h).0)
      ensures OutcomeDenotes(mem.cells, o, BT.NodeSet(lt, t, key, h).1)
      ensures Good(mem, keep + multiset(Kids(n')) + OutRefs(o)) && Evolves(old(mem), mem, keep)
      decreases h, 1
    {
      hide *;
      BT.NodeSetUnfolds(lt, t, key, h);
      SameShape(mem.cells, n, t, h);
      BT.OrderedKeys(lt, t, h);
      var i := BT.ChildIndexLoop(lt, n.keys, key);
      BT.OrderedChild(lt, t, i, h);
      ghost var (r, m0) := (BT.NodeSet(lt, t.children[i], key, h - 1), mem);
      var home, o1 := SetChild(lt, n, i, key, t, h, keep);
      ghost var m1 := mem;
      n', o := Graft(n, i, home, o1, t, r.0, r.1, keep);
      EvolvesTrans(m0, m1, mem, keep);
    }

    /** Make child `i` unique, set in it, and put it back. */
    method SetChild(lt: Lt, n: SNode, i: nat, key: Row, ghost t: BT.BNode, ghost h: nat, ghost keep: multiset<Addr>)
      returns (home: Addr, o: Outcome)
      requires n.SInternal? && t.Internal? && i < |n.kids| == |t.children| && h > 0
      requires BT.RootShape(t.children[i], h - 1)
      requires BT.Shape(t, h) && NodeDenotes(mem.cells, n, t) && Good(mem, keep + multiset(Kids(n)))
      requires BT.Ordered(lt, t.children[i])
      modifies this
      ensures OtherKids(mem.cells, n, t, i) && Denotes(mem.cells, home, BT.NodeSet(lt, t.children[i], key, h - 1).0)
      ensures OutcomeDenotes(mem.cells, o, BT.NodeSet(lt, t.children[i], key, h - 1).1)
      ensures Good(mem, keep + multiset(BT.DropAt(n.kids, i)) + multiset{home} + OutRefs(o))
      ensures Evolves(old(mem), mem, keep)
      decreases h, 0
    {
      hide *;
      ghost var (c, keep') := (t.children[i], keep + multiset(BT.DropAt(n.kids, i)));
      var node, home' := Open(n, i, t, h, keep);
      ghost var m1 := mem;
      ghost var r := BT.NodeSet(lt, c, key, h - 1);
      var node', o' := NodeSet(lt, node, key, c, h - 1, keep');
      home, o := home', o';
      assert keep' + multiset(Kids(node')) + OutRefs(o) == keep' + OutRefs(o) + multiset(Kids(node'));
      Close(node', home, r.0, o, r.1, n, t, i, old(mem), m1, keep);
    }

    /** Take child `i` out for editing. */
    method Open(n: SNode, i: nat, ghost t: BT.BNode, ghost h: nat, ghost keep: multiset<Addr>)
        returns (node: SNode, home: Addr)
      requires n.SInternal? && t.Internal? && i < |n.kids| == |t.children|
      requires h > 0 && BT.Shape(t, h) && NodeDenotes(mem.cells, n, t) && Good(mem, keep + multiset(Kids(n)))
      modifies this
      ensures BT.Shape(t.children[i], h - 1) && BT.RootShape(t.children[i], h - 1)
      ensures NodeDenotes(mem.cells, node, t.children[i])
      ensures OtherKids(old(mem).cells, n, t, i)
      ensures Good(mem, keep + multiset(BT.DropAt(n.kids, i)) + multiset(Kids(node)))
      ensures Evolves(old(mem), mem, keep + multiset(BT.DropAt(n.kids, i)))
      ensures home !in mem.cells && home < mem.next && (home in old(mem).cells || old(mem).next <= home)
    {
      hide *;
      ghost var keep' := keep + multiset(BT.DropAt(n.kids, i));
      ChildAt(mem.cells, n, t, i, h, keep);
      node, home := MakeMut(n.kids[i], t.children[i], keep');
    }

    /** Put an edited child back at its home; `m0` and `m1` are the heap before and after it was
        taken out, `o` a sibling it may have split off. */
    method Close(node: SNode, home: Addr, ghost child: BT.BNode, ghost o: Outcome, ghost o': BT.Outcome,
        ghost n: SNode, ghost t: BT.BNode, ghost i: nat, ghost m0: Mem, ghost m1: Mem,
        ghost keep: multiset<Addr>)
      requires n.SInternal? && i < |n.kids|
      requires OtherKids(m0.cells, n, t, i) && NodeDenotes(mem.cells, node, child) && OutcomeDenotes(mem.cells, o, o')
      requires Good(mem, keep + multiset(BT.DropAt(n.kids, i)) + OutRefs(o) + multiset(Kids(node)))
      requires Evolves(m0, m1, keep + multiset(BT.DropAt(n.kids, i)))
      requires Evolves(m1, mem, keep + multiset(BT.DropAt(n.kids, i)))
      requires home !in m1.cells && home < m1.next && (home in m0.cells || m0.next <= home)
      modifies this
      ensures OtherKids(mem.cells, n, t, i) && Denotes(mem.cells, home, child) && OutcomeDenotes(mem.cells, o, o')
      ensures Good(mem, keep + multiset(BT.DropAt(n.kids, i)) + multiset{home} + OutRefs(o)) && Evolves(m0, mem, keep)
    {
      hide *;
      ghost var keep' := keep + multiset(BT.DropAt(n.kids, i));
      ghost var keep2 := keep' + OutRefs(o);
      ghost var m2 := mem;
      HomeFree(m1, mem, keep', home);
      Put(node, home, child, keep2);
      FrameLess(m2.cells, mem.cells, keep2, keep');
      EvolvesAround(m0, m1, m2, mem, home, keep');
      FrameOutcome(m2.cells, mem.cells, keep2, o, o');
      FrameOthers(m0, mem, keep', n, t, i);
      EvolvesLess(m0, mem, keep', keep);
      assert keep2 + multiset{home} == keep' + multiset{home} + OutRefs(o);
    }

    /** Dropping a reference: the last one frees the node and drops its own references. */
    method Drop(a: Addr, ghost t: BT.BNode, ghost keep: multiset<Addr>)
      requires Good(mem, keep + multiset{a}) && Denotes(mem.cells, a, t)
      modifies this
      ensures Good(mem, keep) && Evolves(old(mem), mem, keep)
      decreases t
    {
      hide *;
      Alive(mem, keep, a, t);
      ghost var m0 := mem;
      if mem.cells[a].rc == 1 {
        var node, home := MakeMut(a, t, keep);
        KidsDenote(mem.cells, node, t);
        ghost var m1 := mem;
        if node.SInternal? {
          DropAll(node.kids, t.children, keep);
          EvolvesTrans(m0, m1, mem, keep);
        } else {
          assert keep + multiset([]) == keep;
        }
      } else {
        DropShared(mem, keep, a);
        mem := mem.(cells := Adjust(mem.cells, multiset{a}, -1));
      }
    }

    method DropAll(kids: seq<Addr>, ghost ts: seq<BT.BNode>, ghost keep: multiset<Addr>)
      requires |kids| == |ts| && (forall i :: 0 <= i < |kids| ==> Denotes(mem.cells, kids[i], ts[i]))
      requires Good(mem, keep + multiset(kids))
      modifies this
      ensures Good(mem, keep) && Evolves(old(mem), mem, keep)
      decreases ts
    {
      hide *;
      if kids == [] {
        assert keep + multiset(kids) == keep;
        EvolvesRefl(mem, keep);
        return;
      }
      ghost var (m0, keep1) := (mem, keep + multiset(kids[1..]));
      assert kids == [kids[0]] + kids[1..];
      assert keep + multiset(kids) == keep1 + multiset{kids[0]};
      Drop(kids[0], ts[0], keep1);
      ghost var m1 := mem;
      forall i | 0 <= i < |kids[1..]| ensures Denotes(mem.cells, kids[1..][i], ts[1..][i]) {
        EvolvesOne(m0, m1, keep1, kids[1..][i], ts[1..][i]);
      }
      EvolvesLess(m0, m1, keep1, keep);
      DropAll(kids[1..], ts[1..], keep);
      EvolvesTrans(m0, m1, mem, keep);
    }

    /** `try_merge` on the heap: the right neighbour's contents are appended to the (unshared)
        left child, then the reference to it is dropped. */
    method TryMerge(n: SNode, i: nat, ghost t: BT.BNode, ghost h: nat, ghost keep: multiset<Addr>) returns (n': SNode)
      requires n.SInternal? && t.Internal? && i < |n.kids| == |t.children|
      requires h > 0 && BT.Shape(t, h) && NodeDenotes(mem.cells, n, t) && Good(mem, keep + multiset(Kids(n)))
      modifies this
      ensures NodeDenotes(mem.cells, n', BT.TryMerge(t, i, h))
      ensures Good(mem, keep + multiset(Kids(n'))) && Evolves(old(mem), mem, keep)
      decreases h, 1
    {
      hide *;
      ChildAt(mem.cells, n, t, i, h, keep);
      PeekKeys(mem, keep, n, t, i);
      if i + 1 < |n.kids| { PeekKeys(mem, keep, n, t, i + 1); }
      if i + 1 < |n.kids|
         && |mem.cells[n.kids[i]].node.keys| + |mem.cells[n.kids[i + 1]].node.keys| <= BT.MAX_NODE_SIZE {
        BT.TryMergeUnfolds(t, i, h);
        n' := Fuse(n, i, t, h, keep);
      } else {
        BT.TryMergeIdle(t, i, h);
        EvolvesRefl(mem, keep);
        n' := n;
      }
    }

    method Fuse(n: SNode, i: nat, ghost t: BT.BNode, ghost h: nat, ghost keep: multiset<Addr>) returns (n': SNode)
      requires n.SInternal? && t.Internal? && i + 1 < |n.kids| == |t.children| && BT.CanFuse(t, i, h)
      requires NodeDenotes(mem.cells, n, t) && Good(mem, keep + multiset(Kids(n)))
      modifies this
      ensures NodeDenotes(mem.cells, n', BT.Fused(t, i, BT.MergeInto(t.children[i], t.children[i + 1], h - 1), h))
      ensures Good(mem, keep + multiset(Kids(n'))) && Evolves(old(mem), mem, keep)
      decreases h, 0
    {
      hide *;
      ghost var m0 := mem;
      BT.CanFuseMeans(t, i, h);
      ghost var (tl, tr) := (t.children[i], t.children[i + 1]);
      ghost var t1 := BT.Internal(BT.DropAt(t.keys, i + 1), BT.DropAt(t.children, i + 1));
      WithoutRight(mem, n, t, i, h, keep);
      var right := n.kids[i + 1];
      var n1 := SInternal(BT.DropAt(n.keys, i + 1), BT.DropAt(n.kids, i + 1));
      ghost var keepR := keep + multiset{right};
      var left, home := Open(n1, i, t1, h, keepR);
      ghost var m1 := mem;
      ghost var keep' := keepR + multiset(BT.DropAt(n1.kids, i));
      EvolvesOne(m0, m1, keep', right, tr);
      AliveIn(m1, keep' + multiset(Kids(left)), right, tr);
      var merged := MergeInto(left, mem.cells[right].node, tl, tr, h - 1, right, keep');
      ghost var tm := BT.MergeInto(tl, tr, h - 1);
      assert keep' + OutRefs(Existed) + multiset(Kids(merged)) == keep' + multiset(Kids(merged)) by { NoRefs(); }
      NoOutcome(mem.cells);
      Close(merged, home, tm, Existed, BT.Existed, n1, t1, i, m0, m1, keepR);
      ghost var m2 := mem;
      FusedKeys(mem, n1, t1, i, home, tm, h, keepR);
      var max := BT.Last(mem.cells[home].node.keys);
      n' := SInternal(n1.keys[i := max], n1.kids[i := home]);
      EvolvesOne(m0, m2, keepR, right, tr);
      assert keepR + multiset(Kids(n')) == keep + multiset(Kids(n')) + multiset{right};
      Drop(right, tr, keep + multiset(Kids(n')));
      ghost var m3 := mem;
      EvolvesNode(m2, m3, keep + multiset(Kids(n')), n', BT.Fused(t, i, tm, h));
      EvolvesLess(m0, m2, keepR, keep);
      EvolvesLess(m2, m3, keep + multiset(Kids(n')), keep);
      EvolvesTrans(m0, m2, m3, keep);
    }

    /** `merge_into`: append the contents of the node at `right`, cloning its references. */
    method MergeInto(left: SNode, rightNode: SNode, ghost tl: BT.BNode, ghost tr: BT.BNode, ghost h: nat,
                     ghost right: Addr, ghost keep: multiset<Addr>) returns (n: SNode)
      requires BT.CanMerge(tl, tr, h) && NodeDenotes(mem.cells, left, tl) && NodeDenotes(mem.cells, rightNode, tr)
      requires right in keep && right in mem.cells && mem.cells[right].node == rightNode
      requires Good(mem, keep + multiset(Kids(left)))
      modifies this
      ensures NodeDenotes(mem.cells, n, BT.MergeInto(tl, tr, h))
      ensures Good(mem, keep + multiset(Kids(n))) && Evolves(old(mem), mem, keep)
      decreases h, 2
    {
      hide *;
      BT.CanMergeMeans(tl, tr, h);
      KidsDenote(mem.cells, left, tl);
      KidsDenote(mem.cells, rightNode, tr);
      if left.SLeaf? {
        BT.MergeLeaves(tl, tr, h);
        n := SLeaf(left.keys + rightNode.keys);
        LeafDenotes(mem.cells, n.keys);
        EvolvesRefl(mem, keep);
      } else {
        ghost var m0 := mem;
        CloneKids(mem, keep + multiset(Kids(left)), right);
        mem := mem.(cells := Adjust(mem.cells, multiset(rightNode.kids), 1));
        ghost var m1 := mem;
        var both := SInternal(left.keys + rightNode.keys, left.kids + rightNode.kids);
        Appended(m0, m1, keep, left, rightNode, tl, tr);
        BT.MergeInternals(tl, tr, h);
        n := TryMerge(both, |left.kids| - 1, BT.Internal(tl.keys + tr.keys, tl.children + tr.children), h, keep);
        EvolvesTrans(m0, m1, mem, keep);
      }
    }

    /** One step of the merge scan on the heap. */
    method ScanAt(n: SNode, j: nat, ghost t: BT.BNode, ghost h: nat, ghost keep: multiset<Addr>) returns (n': SNode)
      requires BT.ScanReady(t, j, h) && NodeDenotes(mem.cells, n, t) && Good(mem, keep + multiset(Kids(n)))
      modifies this
      ensures NodeDenotes(mem.cells, n', BT.ScanAt(t, j, h))
      ensures Good(mem, keep + multiset(Kids(n'))) && Evolves(old(mem), mem, keep)
    {
      hide *;
      BT.ScanAtUnfolds(t, j, h);
      KidsDenote(mem.cells, n, t);
      InternalDenoted(mem.cells, n, t);
      EvolvesRefl(mem, keep);
      n' := n;
      if j < |n.kids| {
        PeekKeys(mem, keep, n, t, j);
        var cell := mem.cells[n.kids[j]].node;
        SameEmptiness(mem.cells, cell, t.children[j]);
        if |cell.keys| <= BT.MAX_NODE_SIZE / 2 {
          if IsEmpty(cell) {
            EmptyIsSmall(cell, t.children[j]);
            n' := DropKid(n, j, t, keep);
          } else {
            n' := TryMerge(n, j, t, h, keep);
          }
        } else {
          EmptyIsSmall(cell, t.children[j]);
        }
      }
    }

    /** Remove an emptied child. */
    method DropKid(n: SNode, j: nat, ghost t: BT.BNode, ghost keep: multiset<Addr>) returns (n': SNode)
      requires n.SInternal? && t.Internal? && NodeDenotes(mem.cells, n, t)
      requires j < |n.kids| == |n.keys| == |t.children| == |t.keys|
      requires Good(mem, keep + multiset(Kids(n)))
      modifies this
      ensures NodeDenotes(mem.cells, n', BT.Internal(BT.DropAt(t.keys, j), BT.DropAt(t.children, j)))
      ensures Good(mem, keep + multiset(Kids(n'))) && Evolves(old(mem), mem, keep)
    {
      hide *;
      ghost var m0 := mem;
      KidsDenote(mem.cells, n, t);
      DropDenotes(mem.cells, n, t, j);
      n' := SInternal(BT.DropAt(n.keys, j), BT.DropAt(n.kids, j));
      ghost var t' := BT.Internal(BT.DropAt(t.keys, j), BT.DropAt(t.children, j));
      KidsDenote(mem.cells, n', t');
      DropAtMultiset(n.kids, j);
      ghost var keep' := keep + multiset(Kids(n'));
      assert keep + multiset(n.kids) == keep' + multiset{n.kids[j]};
      Drop(n.kids[j], t.children[j], keep');
      EvolvesNode(m0, mem, keep', n', t');
      EvolvesLess(m0, mem, keep', keep);
    }

    /** `node_delete` on the heap. */
    method NodeDelete(lt: Lt, n: SNode, key: Row, ghost t: BT.BNode, ghost h: nat, ghost keep: multiset<Addr>)
      returns (n': SNode, removed: bool)
      requires BT.RootShape(t, h) && NodeDenotes(mem.cells, n, t) && Good(mem, keep + multiset(Kids(n)))
      requires BT.Ordered(lt, t)
      modifies this
      ensures NodeDenotes(mem.cells, n', BT.NodeDelete(lt, t, key, h).0) && removed == BT.NodeDelete(lt, t, key, h).1
      ensures Good(mem, keep + multiset(Kids(n'))) && Evolves(old(mem), mem, keep)
      decreases h, 2
    {
      hide *;
      KidsDenote(mem.cells, n, t);
      RootArms(lt, t, key, h);
      BT.OrderedKeys(lt, t, h);
      if n.SLeaf? {
        var i, found := BT.Search(lt, n.keys, key);
        RemoveByIndex(lt, n.keys, key);
        n', removed := SLeaf(if found then n.keys[..i] + n.keys[i + 1..] else n.keys), found;
        LeafDenotes(mem.cells, n'.keys);
        EvolvesRefl(mem, keep);
      } else {
        n', removed := InternalDelete(lt, n, key, t, h, keep);
      }
    }

    method InternalDelete(lt: Lt, n: SNode, key: Row, ghost t: BT.BNode, ghost h: nat, ghost keep: multiset<Addr>)
      returns (n': SNode, removed: bool)
      requires h > 0 && t.Internal? && BT.Shape(t, h) && BT.RootShape(t, h) && BT.Ordered(lt, t)
      requires NodeDenotes(mem.cells, n, t) && Good(mem, keep + multiset(Kids(n)))
      modifies this
      ensures NodeDenotes(mem.cells, n', BT.NodeDelete(lt, t, key, h).0) && removed == BT.NodeDelete(lt, t, key, h).1
      ensures Good(mem, keep + multiset(Kids(n'))) && Evolves(old(mem), mem, keep)
      decreases h, 1
    {
      hide *;
      BT.NodeDeleteUnfolds(lt, t, key, h);
      SameShape(mem.cells, n, t, h);
      BT.OrderedKeys(lt, t, h);
      var i := BT.LowerBoundLoop(lt, n.keys, key);
      if i >= |n.kids| {
        EvolvesRefl(mem, keep);
        return n, false;
      }
      BT.OrderedChild(lt, t, i, h);
      ghost var m0 := mem;
      ghost var r := BT.NodeDelete(lt, t.children[i], key, h - 1);
      var home, removed' := DeleteChild(lt, n, i, key, t, h, keep);
      removed := removed';
      ghost var m1 := mem;
      ghost var t1 := BT.Refreshed(t, i, r.0, h);
      Refresh(mem, n, t, i, home, r.0, keep);
      var cell := mem.cells[home].node;
      SameEmptiness(mem.cells, cell, r.0);
      var n1 := SInternal(if IsEmpty(cell) then n.keys else n.keys[i := BT.Last(cell.keys)], n.kids[i := home]);
      BT.MergeScanUnfolds(t1, i, h);
      n' := ScanAt(n1, i, t1, h, keep);
      ghost var m2 := mem;
      EvolvesTrans(m0, m1, m2, keep);
      if i > 0 {
        n' := ScanAt(n', i - 1, BT.ScanAt(t1, i, h), h, keep);
        EvolvesTrans(m0, m2, mem, keep);
      }
    }

    method DeleteChild(lt: Lt, n: SNode, i: nat, key: Row, ghost t: BT.BNode, ghost h: nat, ghost keep: multiset<Addr>)
      returns (home: Addr, removed: bool)
      requires n.SInternal? && t.Internal? && i < |n.kids| == |t.children| && h > 0
      requires BT.RootShape(t.children[i], h - 1)
      requires BT.Shape(t, h) && NodeDenotes(mem.cells, n, t) && Good(mem, keep + multiset(Kids(n)))
      requires BT.Ordered(lt, t.children[i])
      modifies this
      ensures OtherKids(mem.cells, n, t, i) && Denotes(mem.cells, home, BT.NodeDelete(lt, t.children[i], key, h - 1).0)
      ensures removed == BT.NodeDelete(lt, t.children[i], key, h - 1).1
      ensures Good(mem, keep + multiset(BT.DropAt(n.kids, i)) + multiset{home} + OutRefs(Existed))
      ensures Evolves(old(mem), mem, keep)
      decreases h, 0
    {
      hide *;
      ghost var (c, keep') := (t.children[i], keep + multiset(BT.DropAt(n.kids, i)));
      var node, home' := Open(n, i, t, h, keep);
      ghost var m1 := mem;
      ghost var r := BT.NodeDelete(lt, c, key, h - 1);
      var node', removed' := NodeDelete(lt, node, key, c, h - 1, keep');
      home, removed := home', removed';
      NoRefs();
      NoOutcome(mem.cells);
      assert keep' + multiset(Kids(node')) == keep' + OutRefs(Existed) + multiset(Kids(node'));
      Close(node', home, r.0, Existed, BT.Existed, n, t, i, old(mem), m1, keep);
    }
  }

  lemma RemoveByIndex(lt: Lt, keys: seq<Row>, key: Row)
    ensures Hit(lt, keys, key) ==> LowerBound(lt, keys, key) < |keys|
    ensures Order.Remove(lt, keys, key)
         == var i := LowerBound(lt, keys, key); if Hit(lt, keys, key) then keys[..i] + keys[i + 1..] else keys
  {
  }

  function IsEmpty(n: SNode): bool {
    if n.SLeaf? then n.keys == [] else n.kids == []
  }

  lemma SameEmptiness(s: Store, n: SNode, t: BT.BNode)
    requires NodeDenotes(s, n, t)
    ensures IsEmpty(n) == BT.IsEmptyNode(t) && n.keys == t.keys
  {
  }

  lemma EmptyIsSmall(n: SNode, t: BT.BNode)
    requires n.keys == t.keys
    ensures BT.IsEmptyNode(t) && t.keys == [] ==> |n.keys| <= BT.MAX_NODE_SIZE / 2
    ensures IsEmpty(n) && n.SLeaf? ==> n.keys == []
  {
  }

  lemma InternalDenoted(s: Store, n: SNode, t: BT.BNode)
    requires NodeDenotes(s, n, t) && t.Internal?
    ensures n.SInternal?
  {
  }

  lemma RootArms(lt: Lt, t: BT.BNode, key: Row, h: nat)
    requires BT.RootShape(t, h)
    ensures t.Leaf? ==> BT.NodeDelete(lt, t, key, h) == (BT.Leaf(Order.Remove(lt, t.keys, key)), Hit(lt, t.keys, key))
    ensures t.Internal? ==> h > 0 && BT.Shape(t, h)
  {
    hide BT.MergeScan;
  }

  /** The node with its edited child back in place. */
  lemma Refresh(m: Mem, n: SNode, t: BT.BNode, i: nat, home: Addr, child: BT.BNode, keep: multiset<Addr>)
    requires OtherKids(m.cells, n, t, i) && Denotes(m.cells, home, child)
    requires !BT.IsEmptyNode(child) ==> child.keys != []
    requires Good(m, keep + multiset(BT.DropAt(n.kids, i)) + multiset{home} + OutRefs(Existed))
    ensures home in m.cells && NodeDenotes(m.cells, m.cells[home].node, child) && |n.keys| == |n.kids|
    ensures var keys := if BT.IsEmptyNode(child) then n.keys else n.keys[i := BT.Last(child.keys)];
      && NodeDenotes(m.cells, SInternal(keys, n.kids[i := home]), BT.Internal(keys, t.children[i := child]))
      && Good(m, keep + multiset(Kids(SInternal(keys, n.kids[i := home]))))
  {
    hide Good;
    hide BT.DropAt;
    var keys := if BT.IsEmptyNode(child) then n.keys else n.keys[i := BT.Last(child.keys)];
    UpdateIsSplice(n.kids, i, home);
    UpdateIsSplice(t.children, i, child);
    SpliceDenotes(m.cells, n, t, i, keys, [home], [child]);
    SpliceRefs(keep, n.kids, i, [home], multiset{home});
    assert keep + multiset(BT.DropAt(n.kids, i)) + multiset{home} + OutRefs(Existed)
        == keep + multiset(BT.DropAt(n.kids, i)) + multiset{home};
  }

  lemma NoRefs()
    ensures OutRefs(Existed) == multiset{}
  {
  }

  lemma NoOutcome(s: Store)
    ensures OutcomeDenotes(s, Existed, BT.Existed)
  {
  }

  lemma LeafDenotes(s: Store, keys: seq<Row>)
    ensures NodeDenotes(s, SLeaf(keys), BT.Leaf(keys)) && Kids(SLeaf(keys)) == []
  {
  }

  lemma PeekKeys(m: Mem, keep: multiset<Addr>, n: SNode, t: BT.BNode, i: nat)
    requires n.SInternal? && t.Internal? && i < |n.kids| == |t.children| && NodeDenotes(m.cells, n, t)
    ensures n.kids[i] in m.cells && m.cells[n.kids[i]].node.keys == t.children[i].keys
    ensures NodeDenotes(m.cells, m.cells[n.kids[i]].node, t.children[i])
  {
    AliveIn(m, keep, n.kids[i], t.children[i]);
    KidsDenote(m.cells, m.cells[n.kids[i]].node, t.children[i]);
  }

  lemma AliveIn(m: Mem, ext: multiset<Addr>, a: Addr, t: BT.BNode)
    requires Denotes(m.cells, a, t)
    ensures a in m.cells && NodeDenotes(m.cells, m.cells[a].node, t)
  {
  }

  /** Moving the reference to the right neighbour out of the node. */
  lemma WithoutRight(m: Mem, n: SNode, t: BT.BNode, i: nat, h: nat, keep: multiset<Addr>)
    requires n.SInternal? && t.Internal? && i + 1 < |n.kids| == |t.children| && h > 0 && BT.Shape(t, h)
    requires NodeDenotes(m.cells, n, t) && Good(m, keep + multiset(Kids(n)))
    ensures |n.keys| == |n.kids| && n.keys == t.keys && |t.keys| == |t.children|
    ensures var n1 := SInternal(BT.DropAt(n.keys, i + 1), BT.DropAt(n.kids, i + 1));
      var t1 := BT.Internal(BT.DropAt(t.keys, i + 1), BT.DropAt(t.children, i + 1));
      && NodeDenotes(m.cells, n1, t1) && BT.Shape(t1, h) && |n1.kids| == |t1.children| == |n.kids| - 1
      && t1.children[i] == t.children[i]
      && Good(m, keep + multiset{n.kids[i + 1]} + multiset(Kids(n1)))
      && Denotes(m.cells, n.kids[i + 1], t.children[i + 1])
  {
    hide *;
    KidsDenote(m.cells, n, t);
    BT.DropShape(t, i + 1, h);
    DropDenotes(m.cells, n, t, i + 1);
    KidsDenote(m.cells, SInternal(BT.DropAt(n.keys, i + 1), BT.DropAt(n.kids, i + 1)),
               BT.Internal(BT.DropAt(t.keys, i + 1), BT.DropAt(t.children, i + 1)));
    DropAtMultiset(n.kids, i + 1);
    assert keep + multiset(n.kids) == keep + multiset{n.kids[i + 1]} + multiset(BT.DropAt(n.kids, i + 1));
  }

  lemma DropDenotes(s: Store, n: SNode, t: BT.BNode, j: nat)
    requires n.SInternal? && t.Internal? && NodeDenotes(s, n, t) && j < |n.kids| == |n.keys|
    ensures NodeDenotes(s, SInternal(BT.DropAt(n.keys, j), BT.DropAt(n.kids, j)),
      BT.Internal(BT.DropAt(t.keys, j), BT.DropAt(t.children, j)))
  {
    var (k, c) := (BT.DropAt(n.kids, j), BT.DropAt(t.children, j));
    forall i | 0 <= i < |k| ensures Denotes(s, k[i], c[i]) {
      if i >= j { assert k[i] == n.kids[i + 1] && c[i] == t.children[i + 1]; }
    }
  }

  lemma FusedKeys(m: Mem, n1: SNode, t1: BT.BNode, i: nat, home: Addr, tm: BT.BNode, h: nat, keep: multiset<Addr>)
    requires OtherKids(m.cells, n1, t1, i) && Denotes(m.cells, home, tm) && tm.keys != []
    requires Good(m, keep + multiset(BT.DropAt(n1.kids, i)) + multiset{home} + OutRefs(Existed))
    ensures home in m.cells && m.cells[home].node.keys == tm.keys && |n1.keys| == |n1.kids|
    ensures var n' := SInternal(n1.keys[i := BT.Last(tm.keys)], n1.kids[i := home]);
      && NodeDenotes(m.cells, n', BT.Internal(t1.keys[i := BT.Last(tm.keys)], t1.children[i := tm]))
      && Good(m, keep + multiset(Kids(n')))
  {
    hide Good;
    hide BT.DropAt;
    UpdateIsSplice(n1.kids, i, home);
    UpdateIsSplice(t1.children, i, tm);
    SpliceDenotes(m.cells, n1, t1, i, n1.keys[i := BT.Last(tm.keys)], [home], [tm]);
    SpliceRefs(keep, n1.kids, i, [home], multiset{home});
    assert keep + multiset(BT.DropAt(n1.kids, i)) + multiset{home} + OutRefs(Existed)
        == keep + multiset(BT.DropAt(n1.kids, i)) + multiset{home};
  }

  lemma EvolvesNode(m: Mem, m': Mem, keep: multiset<Addr>, n: SNode, t: BT.BNode)
    requires Evolves(m, m', keep) && NodeDenotes(m.cells, n, t) && multiset(Kids(n)) <= keep
    ensures NodeDenotes(m'.cells, n, t)
  {
    FrameNode(m.cells, m'.cells, keep, n, t);
  }

  lemma CloneKids(m: Mem, ext: multiset<Addr>, a: Addr)
    requires Good(m, ext) && a in m.cells && m.cells[a].node.SInternal?
    ensures var m' := m.(cells := Adjust(m.cells, multiset(m.cells[a].node.kids), 1));
      && Good(m', ext + multiset(m.cells[a].node.kids)) && Evolves(m, m', ext)
  {
    var k := m.cells[a].node.kids;
    RefsRemove(m.cells, a);
    assert forall b :: b in multiset(k) ==> b in m.cells;
    Retain(m.cells, ext, multiset(k));
    hide Exact;
    hide Frame;
  }

  lemma Appended(m: Mem, m': Mem, keep: multiset<Addr>, l: SNode, r: SNode, tl: BT.BNode, tr: BT.BNode)
    requires l.SInternal? && r.SInternal? && tl.Internal? && tr.Internal? && NodeDenotes(m.cells, l, tl)
    requires NodeDenotes(m.cells, r, tr)
    requires m' == m.(cells := Adjust(m.cells, multiset(r.kids), 1))
    requires Good(m', keep + multiset(Kids(l)) + multiset(r.kids)) && Evolves(m, m', keep + multiset(Kids(l)))
    ensures var both := SInternal(l.keys + r.keys, l.kids + r.kids);
      && NodeDenotes(m'.cells, both, BT.Internal(tl.keys + tr.keys, tl.children + tr.children))
      && Good(m', keep + multiset(Kids(both))) && Evolves(m, m', keep)
  {
    hide *;
    KidsIs(l);
    KidsIs(r);
    KidsIs(SInternal(l.keys + r.keys, l.kids + r.kids));
    AdjustKeepsNodes(m.cells, multiset(r.kids), 1);
    NodeDenotesGrow(m.cells, m'.cells, l, tl);
    NodeDenotesGrow(m.cells, m'.cells, r, tr);
    ConcatDenotes(m'.cells, l, r, tl, tr);
    EvolvesLess(m, m', keep + multiset(Kids(l)), keep);
    assert keep + multiset(l.kids) + multiset(r.kids) == keep + multiset(l.kids + r.kids);
  }

  lemma KidsIs(n: SNode)
    requires n.SInternal?
    ensures Kids(n) == n.kids
  {
  }

  lemma AdjustKeepsNodes(s: Store, d: multiset<Addr>, sign: int)
    ensures forall b :: b in s ==> b in Adjust(s, d, sign) && Adjust(s, d, sign)[b].node == s[b].node
  {
  }

  lemma ConcatDenotes(s: Store, l: SNode, r: SNode, tl: BT.BNode, tr: BT.BNode)
    requires l.SInternal? && r.SInternal? && tl.Internal? && tr.Internal? && NodeDenotes(s, l, tl)
    requires NodeDenotes(s, r, tr)
    ensures NodeDenotes(s, SInternal(l.keys + r.keys, l.kids + r.kids),
      BT.Internal(tl.keys + tr.keys, tl.children + tr.children))
  {
    var (k, c) := (l.kids + r.kids, tl.children + tr.children);
    forall i | 0 <= i < |k| ensures Denotes(s, k[i], c[i]) {
      if i >= |l.kids| { assert k[i] == r.kids[i - |l.kids|] && c[i] == tr.children[i - |l.kids|]; }
    }
  }

  lemma KidsDenote(s: Store, n: SNode, t: BT.BNode)
    requires NodeDenotes(s, n, t)
    ensures n.SInternal? ==>
      && t.Internal? && Kids(n) == n.kids && |n.kids| == |t.children|
      && forall i :: 0 <= i < |n.kids| ==> Denotes(s, n.kids[i], t.children[i])
    ensures n.SLeaf? ==> t.Leaf? && Kids(n) == []
    ensures n.keys == t.keys
  {
  }

  lemma Alive(m: Mem, keep: multiset<Addr>, a: Addr, t: BT.BNode)
    requires Good(m, keep + multiset{a}) && Denotes(m.cells, a, t)
    ensures a in m.cells && m.cells[a].rc >= 1 && NodeDenotes(m.cells, m.cells[a].node, t)
  {
  }

  lemma EvolvesOne(m: Mem, m': Mem, keep: multiset<Addr>, a: Addr, t: BT.BNode)
    requires Evolves(m, m', keep) && a in keep && Denotes(m.cells, a, t)
    ensures Denotes(m'.cells, a, t)
  {
    hide Denotes;
  }

  lemma DropShared(m: Mem, keep: multiset<Addr>, a: Addr)
    requires Good(m, keep + multiset{a}) && a in m.cells && m.cells[a].rc > 1
    ensures Good(m.(cells := Adjust(m.cells, multiset{a}, -1)), keep)
    ensures Evolves(m, m.(cells := Adjust(m.cells, multiset{a}, -1)), keep)
  {
    assert keep + multiset{a} - multiset{a} == keep;
    ReleaseShared(m.cells, keep + multiset{a}, a);
    hide Exact;
    hide Frame;
  }

  lemma ChildAt(s: Store, n: SNode, t: BT.BNode, i: nat, h: nat, keep: multiset<Addr>)
    requires n.SInternal? && t.Internal? && i < |n.kids| == |t.children| && h > 0 && BT.Shape(t, h)
    requires NodeDenotes(s, n, t)
    ensures keep + multiset(Kids(n)) == keep + multiset(BT.DropAt(n.kids, i)) + multiset{n.kids[i]}
    ensures BT.Shape(t.children[i], h - 1) && BT.RootShape(t.children[i], h - 1)
    ensures Denotes(s, n.kids[i], t.children[i]) && OtherKids(s, n, t, i)
  {
    DropAtMultiset(n.kids, i);
  }

  lemma HomeFree(m1: Mem, m2: Mem, keep: multiset<Addr>, home: Addr)
    requires Evolves(m1, m2, keep) && home !in m1.cells && home < m1.next
    ensures home !in m2.cells && home < m2.next
  {
    hide Frame;
  }

  lemma SameShape(s: Store, n: SNode, t: BT.BNode, h: nat)
    requires NodeDenotes(s, n, t) && h > 0 && BT.Shape(t, h)
    ensures n.SInternal? && t.Internal? && n.keys == t.keys && |n.kids| == |t.children|
  {
  }

  lemma FrameLess(s: Store, s': Store, keep: multiset<Addr>, less: multiset<Addr>)
    requires Frame(s, s', keep) && less <= keep
    ensures Frame(s, s', less)
  {
    hide Denotes;
  }

  lemma FrameOutcome(s: Store, s': Store, keep: multiset<Addr>, o: Outcome, o': BT.Outcome)
    requires Frame(s, s', keep) && OutcomeDenotes(s, o, o') && OutRefs(o) <= keep
    ensures OutcomeDenotes(s', o, o')
  {
    hide Denotes;
    if o.Split? { assert o.right in OutRefs(o); }
  }

  lemma FrameOthers(m: Mem, m': Mem, keep: multiset<Addr>, n: SNode, t: BT.BNode, i: nat)
    requires Evolves(m, m', keep) && OtherKids(m.cells, n, t, i) && multiset(BT.DropAt(n.kids, i)) <= keep
    ensures OtherKids(m'.cells, n, t, i)
  {
    DropAtMultiset(n.kids, i);
    hide Denotes;
    hide BT.DropAt;
    forall j | 0 <= j < |n.kids| && j != i ensures Denotes(m'.cells, n.kids[j], t.children[j]) {
      assert n.kids[j] in multiset(BT.DropAt(n.kids, i));
    }
  }

  /** A node all of whose references are kept still denotes the same tree. */
  lemma {:induction false} FrameNode(s: Store, s': Store, keep: multiset<Addr>, n: SNode, t: BT.BNode)
    requires Frame(s, s', keep) && NodeDenotes(s, n, t) && multiset(Kids(n)) <= keep
    ensures NodeDenotes(s', n, t)
  {
    if n.SInternal? {
      forall j | 0 <= j < |n.kids| ensures Denotes(s', n.kids[j], t.children[j]) {
        assert n.kids[j] in multiset(Kids(n));
      }
    }
  }
}
