/** Source changes and what they do to one ordered index: `apply_source_change_to_tree` in
    rust/src/btree.rs and the per-index body of `write_change` in rust/src/memory_source.rs. */
module Changes {
  import opened Values
  import opened Order
  import BT = BTree
  import SD = StructuralDiff

  datatype SourceChange = Add(row: Row) | Remove(row: Row) | Edit(old_: Row, row: Row)

  /** One change on an ordered set of rows; an edit deletes the old row and adds the new. */
  function Applied(lt: Lt, s: seq<Row>, c: SourceChange): seq<Row> {
    match c
    case Add(r) => Insert(lt, s, r)
    case Remove(r) => Order.Remove(lt, s, r)
    case Edit(old_, r) => Insert(lt, Order.Remove(lt, s, old_), r)
  }

  function AppliedAll(lt: Lt, s: seq<Row>, cs: seq<SourceChange>): seq<Row>
    decreases |cs|
  {
    if cs == [] then s else AppliedAll(lt, Applied(lt, s, cs[0]), cs[1..])
  }

  /** A change that states the truth about the set it is applied to: an added key is absent, a
      removed or edited row is present with exactly that content, and an edit does not land on
      a third row's key. */
  predicate Legal(lt: Lt, s: seq<Row>, c: SourceChange) {
    match c
    case Add(r) => !Hit(lt, s, r)
    case Remove(r) => r in s
    case Edit(old_, r) => old_ in s && (SameKey(lt, old_, r) || !Hit(lt, s, r))
  }

  predicate AllLegal(lt: Lt, s: seq<Row>, cs: seq<SourceChange>)
    decreases |cs|
  {
    cs == [] || (Legal(lt, s, cs[0]) && AllLegal(lt, Applied(lt, s, cs[0]), cs[1..]))
  }

  function WriteTree(lt: Lt, t: BT.Tree, c: SourceChange): BT.Tree
    requires StrictWeak(lt) && BT.Ok(lt, t)
  {
    match c
    case Add(r) => BT.Add(lt, t, r).0
    case Remove(r) => BT.Delete(lt, t, r).0
    case Edit(old_, r) => BT.DeleteCorrect(lt, t, old_); BT.Add(lt, BT.Delete(lt, t, old_).0, r).0
  }

  /** The tree write is the set write and keeps the tree valid. */
  lemma {:induction false} WriteTreeCorrect(lt: Lt, t: BT.Tree, c: SourceChange)
    requires StrictWeak(lt) && BT.Ok(lt, t)
    ensures BT.Ok(lt, WriteTree(lt, t, c))
    ensures BT.Contents(WriteTree(lt, t, c)) == Applied(lt, BT.Contents(t), c)
  {
    hide Insert;
    hide Order.Remove;
    hide BT.Contents;
    hide BT.Add;
    hide BT.Delete;
    hide BT.Height;
    hide BT.RootShape;
    match c {
      case Add(r) => BT.AddCorrect(lt, t, r);
      case Remove(r) => BT.DeleteCorrect(lt, t, r);
      case Edit(old_, r) =>
        BT.DeleteCorrect(lt, t, old_);
        BT.AddCorrect(lt, BT.Delete(lt, t, old_).0, r);
    }
  }

  // ---- membership ----

  lemma {:induction false} InsertMembers(lt: Lt, s: seq<Row>, key: Row, r: Row)
    requires StrictWeak(lt) && Sorted(lt, s)
    ensures Sorted(lt, Insert(lt, s, key))
    ensures r in Insert(lt, s, key) <==> r == key || (r in s && !SameKey(lt, key, r))
  {
    hide Insert;
    Laws(lt, r, r, r);
    Laws(lt, key, key, key);
    InsertActsAsUpdate(lt, s, key, r);
    InsertActsAsUpdate(lt, s, key, key);
    var t := Insert(lt, s, key);
    HitIffPresent(lt, t, r);
    HitIffPresent(lt, s, r);
    assert r in t <==> Lookup(lt, t, r) == Some(r);
    assert r in s <==> Lookup(lt, s, r) == Some(r);
  }

  lemma {:induction false} RemoveMembers(lt: Lt, s: seq<Row>, key: Row, r: Row)
    requires StrictWeak(lt) && Sorted(lt, s)
    ensures Sorted(lt, Order.Remove(lt, s, key))
    ensures r in Order.Remove(lt, s, key) <==> r in s && !SameKey(lt, key, r)
  {
    hide Order.Remove;
    Laws(lt, r, r, r);
    RemoveActsAsErasure(lt, s, key, r);
    var t := Order.Remove(lt, s, key);
    HitIffPresent(lt, t, r);
    HitIffPresent(lt, s, r);
    assert r in t <==> Lookup(lt, t, r) == Some(r);
    assert r in s <==> Lookup(lt, s, r) == Some(r);
  }

  lemma {:induction false} AppliedSorted(lt: Lt, s: seq<Row>, c: SourceChange)
    requires StrictWeak(lt) && Sorted(lt, s)
    ensures Sorted(lt, Applied(lt, s, c))
  {
    hide Insert;
    hide Order.Remove;
    match c {
      case Add(r) => InsertMembers(lt, s, r, r);
      case Remove(r) => RemoveMembers(lt, s, r, r);
      case Edit(old_, r) =>
        RemoveMembers(lt, s, old_, r);
        InsertMembers(lt, Order.Remove(lt, s, old_), r, r);
    }
  }

  /** Two rows of a sorted set with one key are one row. */
  lemma KeyIdentifies(lt: Lt, s: seq<Row>, a: Row, b: Row)
    requires Sorted(lt, s) && a in s && b in s && SameKey(lt, a, b)
    ensures a == b
  {
    var i :| 0 <= i < |s| && s[i] == a;
    var j :| 0 <= j < |s| && s[j] == b;
    assert i < j ==> lt(s[i], s[j]);
    assert j < i ==> lt(s[j], s[i]);
  }

  // ---- a difference, applied ----

  /** `structural_diff`: the diff callbacks as source changes. */
  function ChangeOf(e: SD.Event): SourceChange {
    match e
    case OnlyThis(r) => Remove(r)
    case OnlyOther(r) => Add(r)
    case Edit(a, b) => Edit(a, b)
  }

  function ChangesOf(es: seq<SD.Event>): seq<SourceChange> {
    if es == [] then [] else [ChangeOf(es[0])] + ChangesOf(es[1..])
  }

  /** A sorted set cut below and above one key. */
  lemma {:induction false} AtCut(lt: Lt, a: seq<Row>, b: seq<Row>, key: Row)
    requires StrictWeak(lt) && Sorted(lt, a + b)
    requires a != [] ==> lt(BT.Last(a), key)
    requires b != [] ==> !lt(b[0], key)
    ensures LowerBound(lt, a + b, key) == |a|
    ensures Hit(lt, a + b, key) <==> b != [] && !lt(key, b[0])
    ensures b == [] || lt(key, b[0]) ==> Insert(lt, a + b, key) == a + [key] + b && !Hit(lt, a + b, key)
    ensures b != [] && !lt(key, b[0]) ==> Order.Remove(lt, a + b, key) == a + b[1..]
  {
    LowerBoundUnique(lt, a + b, key, |a|);
    hide LowerBound;
  }

  lemma {:induction false} Chained(lt: Lt, s: seq<Row>, e: SD.Event, rest: seq<SD.Event>, s': seq<Row>, fin: seq<Row>)
    requires Legal(lt, s, ChangeOf(e)) && Applied(lt, s, ChangeOf(e)) == s'
    requires AllLegal(lt, s', ChangesOf(rest)) && AppliedAll(lt, s', ChangesOf(rest)) == fin
    ensures AllLegal(lt, s, ChangesOf([e] + rest)) && AppliedAll(lt, s, ChangesOf([e] + rest)) == fin
  {
    hide Legal;
    hide Applied;
    assert ([e] + rest)[1..] == rest;
    var cs := ChangesOf([e] + rest);
    assert cs[0] == ChangeOf(e) && cs[1..] == ChangesOf(rest);
  }

  /** Dropping the last row of `f + [x]` below a finished tail. */
  lemma {:induction false} DropTop(lt: Lt, f: seq<Row>, x: Row, z: seq<Row>)
    requires StrictWeak(lt) && Sorted(lt, f + [x] + z)
    ensures Legal(lt, f + [x] + z, Remove(x)) && Order.Remove(lt, f + [x] + z, x) == f + z && Sorted(lt, f + z)
  {
    hide *;
    var s := f + [x] + z;
    assert s == f + ([x] + z);
    Laws(lt, x, x, x);
    TailSorted(lt, f, x, z);
    assert x in s && ([x] + z)[0] == x && ([x] + z)[1..] == z;
    AtCut(lt, f, [x] + z, x);
    RemoveMembers(lt, s, x, x);
    Shown(lt, s, SD.OnlyThis(x));
  }

  /** Adding a new largest row below a finished tail. */
  lemma {:induction false} AddTop(lt: Lt, f: seq<Row>, y: Row, z: seq<Row>)
    requires StrictWeak(lt) && Sorted(lt, f + z) && Sorted(lt, [y] + z)
    requires f != [] ==> lt(BT.Last(f), y)
    ensures Legal(lt, f + z, Add(y)) && Insert(lt, f + z, y) == f + [y] + z && Sorted(lt, f + [y] + z)
  {
    Laws(lt, y, y, y);
    if z != [] {
      assert ([y] + z)[0] == y && ([y] + z)[1] == z[0];
      Laws(lt, y, z[0], y);
    }
    AtCut(lt, f, z, y);
    InsertSorted(lt, f + z, y);
    hide Insert;
  }

  lemma {:induction false} TailSorted(lt: Lt, g: seq<Row>, y: Row, z: seq<Row>)
    requires Sorted(lt, g + [y] + z)
    ensures Sorted(lt, [y] + z) && Sorted(lt, g) && (g != [] ==> lt(BT.Last(g), y))
  {
    var s := g + [y] + z;
    forall i, j | 0 <= i < j < |[y] + z| ensures lt(([y] + z)[i], ([y] + z)[j]) {
      assert ([y] + z)[i] == s[|g| + i] && ([y] + z)[j] == s[|g| + j];
    }
    forall i, j | 0 <= i < j < |g| ensures lt(g[i], g[j]) { assert g[i] == s[i] && g[j] == s[j]; }
    if g != [] { assert s[|g| - 1] == BT.Last(g) && s[|g|] == y; }
  }

  /** Applying a structural difference to one set turns it into the other, and each change is
      legal at the moment it is applied.  (`z` is the tail already made equal.) */
  lemma {:induction false} DiffApplies(lt: Lt, t: seq<Row>, o: seq<Row>, z: seq<Row>)
    requires StrictWeak(lt) && Sorted(lt, t + z) && Sorted(lt, o + z)
    ensures AllLegal(lt, t + z, ChangesOf(SD.Diff(lt, t, o)))
    ensures AppliedAll(lt, t + z, ChangesOf(SD.Diff(lt, t, o))) == o + z
    decreases |t| + |o|
  {
    if t == [] && o == [] { return; }
    if t != [] && (o == [] || lt(BT.Last(o), BT.Last(t))) {
      ThisOnly(lt, t, o, z);
    } else if t == [] || lt(BT.Last(t), BT.Last(o)) {
      OtherOnly(lt, t, o, z);
    } else {
      Both(lt, t, o, z);
    }
  }

  lemma {:induction false} ThisOnly(lt: Lt, t: seq<Row>, o: seq<Row>, z: seq<Row>)
    requires StrictWeak(lt) && Sorted(lt, t + z) && Sorted(lt, o + z)
    requires t != [] && (o == [] || lt(BT.Last(o), BT.Last(t)))
    ensures AllLegal(lt, t + z, ChangesOf(SD.Diff(lt, t, o)))
    ensures AppliedAll(lt, t + z, ChangesOf(SD.Diff(lt, t, o))) == o + z
    decreases |t| + |o|, 0
  {
    var (f, x) := (t[..|t| - 1], BT.Last(t));
    assert t == f + [x];
    var rest := SD.Diff(lt, f, o);
    assert SD.Diff(lt, t, o) == [SD.OnlyThis(x)] + rest;
    hide *;
    DropTop(lt, f, x, z);
    DiffApplies(lt, f, o, z);
    Shown(lt, t + z, SD.OnlyThis(x));
    Chained(lt, t + z, SD.OnlyThis(x), rest, f + z, o + z);
  }

  lemma {:induction false} OtherOnly(lt: Lt, t: seq<Row>, o: seq<Row>, z: seq<Row>)
    requires StrictWeak(lt) && Sorted(lt, t + z) && Sorted(lt, o + z)
    requires o != [] && (t == [] || lt(BT.Last(t), BT.Last(o)))
    ensures AllLegal(lt, t + z, ChangesOf(SD.Diff(lt, t, o)))
    ensures AppliedAll(lt, t + z, ChangesOf(SD.Diff(lt, t, o))) == o + z
    decreases |t| + |o|, 0
  {
    var (g, y) := (o[..|o| - 1], BT.Last(o));
    assert o == g + [y];
    var rest := SD.Diff(lt, t, g);
    assert SD.Diff(lt, t, o) == [SD.OnlyOther(y)] + rest by {
      if t != [] { Laws(lt, BT.Last(t), BT.Last(o), BT.Last(t)); }
    }
    hide *;
    TailSorted(lt, g, y, z);
    AddTop(lt, t, y, z);
    Regroup(t, y, z);
    Regroup(g, y, z);
    DiffApplies(lt, t, g, [y] + z);
    Shown(lt, t + z, SD.OnlyOther(y));
    Chained(lt, t + z, SD.OnlyOther(y), rest, t + ([y] + z), o + z);
  }

  lemma {:induction false} Both(lt: Lt, t: seq<Row>, o: seq<Row>, z: seq<Row>)
    requires StrictWeak(lt) && Sorted(lt, t + z) && Sorted(lt, o + z)
    requires t != [] && o != [] && SameKey(lt, BT.Last(t), BT.Last(o))
    ensures AllLegal(lt, t + z, ChangesOf(SD.Diff(lt, t, o)))
    ensures AppliedAll(lt, t + z, ChangesOf(SD.Diff(lt, t, o))) == o + z
    decreases |t| + |o|, 0
  {
    hide *;
    DiffPair(lt, t, o);
    var (f, x, g, y) := (t[..|t| - 1], t[|t| - 1], o[..|o| - 1], o[|o| - 1]);
    assert t == f + [x] && o == g + [y];
    BothParts(lt, f, x, g, y, z);
  }

  lemma {:induction false} BothParts(lt: Lt, f: seq<Row>, x: Row, g: seq<Row>, y: Row, z: seq<Row>)
    requires StrictWeak(lt) && Sorted(lt, f + [x] + z) && Sorted(lt, g + [y] + z) && !lt(x, y) && !lt(y, x)
    ensures var rest := SD.Diff(lt, f, g);
      var events := if x == y then rest else [SD.Edit(x, y)] + rest;
      AllLegal(lt, f + [x] + z, ChangesOf(events)) && AppliedAll(lt, f + [x] + z, ChangesOf(events)) == g + [y] + z
    decreases |f| + |g| + 1
  {
    hide *;
    var (rest, tail) := (SD.Diff(lt, f, g), [y] + z);
    TailSorted(lt, g, y, z);
    EditTop(lt, f, x, y, z);
    Regroup(f, y, z);
    Regroup(g, y, z);
    DiffApplies(lt, f, g, tail);
    if x != y {
      Chained(lt, f + [x] + z, SD.Edit(x, y), rest, f + tail, g + tail);
    }
  }

  /** Replacing the largest row of `f + [x]` by another with its key. */
  lemma {:induction false} EditTop(lt: Lt, f: seq<Row>, x: Row, y: Row, z: seq<Row>)
    requires StrictWeak(lt) && Sorted(lt, f + [x] + z) && Sorted(lt, [y] + z) && !lt(x, y) && !lt(y, x)
    ensures Sorted(lt, f + [y] + z)
    ensures Legal(lt, f + [x] + z, ChangeOf(SD.Edit(x, y)))
    ensures Applied(lt, f + [x] + z, ChangeOf(SD.Edit(x, y))) == f + [y] + z
  {
    hide *;
    TailSorted(lt, f, x, z);
    DropTop(lt, f, x, z);
    if f != [] { Laws(lt, BT.Last(f), y, x); }
    AddTop(lt, f, y, z);
    assert x in f + [x] + z;
    Shown(lt, f + [x] + z, SD.Edit(x, y));
  }

  lemma Regroup(a: seq<Row>, y: Row, z: seq<Row>)
    ensures a + [y] + z == a + ([y] + z)
  {
  }

  lemma DiffPair(lt: Lt, t: seq<Row>, o: seq<Row>)
    requires t != [] && o != [] && SameKey(lt, BT.Last(t), BT.Last(o))
    ensures var (f, x, g, y) := (t[..|t| - 1], t[|t| - 1], o[..|o| - 1], o[|o| - 1]);
      && !lt(x, y) && !lt(y, x)
      && SD.Diff(lt, t, o) == if x == y then SD.Diff(lt, f, g) else [SD.Edit(x, y)] + SD.Diff(lt, f, g)
  {
  }

  lemma Shown(lt: Lt, s: seq<Row>, e: SD.Event)
    ensures e.OnlyThis? && e.row in s ==> Legal(lt, s, ChangeOf(e))
    ensures e.OnlyThis? ==> ChangeOf(e) == Remove(e.row) && Applied(lt, s, ChangeOf(e)) == Order.Remove(lt, s, e.row)
    ensures e.OnlyOther? ==> ChangeOf(e) == Add(e.row) && Applied(lt, s, ChangeOf(e)) == Insert(lt, s, e.row)
    ensures e.Edit? ==> Applied(lt, s, ChangeOf(e)) == Insert(lt, Order.Remove(lt, s, e.this_), e.other)
    ensures e.Edit? && e.this_ in s && !lt(e.this_, e.other) && !lt(e.other, e.this_) ==> Legal(lt, s, ChangeOf(e))
  {
  }
}
