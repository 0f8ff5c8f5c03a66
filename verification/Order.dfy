/** Strict weak orders on rows, and strictly sorted sequences used as finite ordered sets.
    Everything about trees, cursors and diffs is proved for every such order;
    `SortIsStrictWeak` says that `compare_rows` under any sort is one. */
module Order {
  import opened Values

  type Lt = (Row, Row) -> bool

  /** Asymmetric, transitive and negatively transitive.  The laws are instantiated only at
      triples named by `Triple` (see `Laws` and `AllLaws`), which keeps proofs cheap. */
  ghost predicate StrictWeak(lt: Lt) {
    forall a, b, c {:trigger Triple(a, b, c)} ::
      && (lt(a, b) ==> !lt(b, a))
      && (lt(a, b) && lt(b, c) ==> lt(a, c))
      && (lt(a, c) ==> lt(a, b) || lt(b, c))
  }

  ghost predicate Triple(a: Row, b: Row, c: Row) {
    true
  }

  lemma Laws(lt: Lt, a: Row, b: Row, c: Row)
    requires StrictWeak(lt)
    ensures lt(a, b) ==> !lt(b, a)
    ensures lt(a, b) && lt(b, c) ==> lt(a, c)
    ensures lt(a, c) ==> lt(a, b) || lt(b, c)
  {
    assert Triple(a, b, c);
  }

  lemma AllLaws(lt: Lt)
    requires StrictWeak(lt)
    ensures forall a, b :: lt(a, b) ==> !lt(b, a)
    ensures forall a, b, c :: lt(a, b) && lt(b, c) ==> lt(a, c)
    ensures forall a, b, c :: lt(a, c) ==> lt(a, b) || lt(b, c)
  {
    forall a, b, c
      ensures lt(a, b) ==> !lt(b, a)
      ensures lt(a, b) && lt(b, c) ==> lt(a, c)
      ensures lt(a, c) ==> lt(a, b) || lt(b, c)
    {
      Laws(lt, a, b, c);
    }
  }

  function SortLt(sort: Sort): Lt {
    (a: Row, b: Row) => CompareRows(sort, a, b).Less?
  }

  predicate SameKey(lt: Lt, a: Row, b: Row) {
    !lt(a, b) && !lt(b, a)
  }

  /** `compare_rows` under any sort is a strict weak order, and its ties are exactly the
      rows equal on every sort column. */
  lemma SortIsStrictWeak(sort: Sort)
    ensures StrictWeak(SortLt(sort))
    ensures forall a, b :: SameKey(SortLt(sort), a, b) <==> CompareRows(sort, a, b).Equal?
    ensures forall a, b :: SameKey(SortLt(sort), a, b) <==> SameSortKey(sort, a, b)
  {
    var lt := SortLt(sort);
    forall a, b
      ensures lt(a, b) ==> !lt(b, a)
      ensures SameKey(lt, a, b) <==> CompareRows(sort, a, b).Equal?
      ensures SameKey(lt, a, b) <==> SameSortKey(sort, a, b)
    {
      RowLaws(sort, a, b);
    }
    forall a, b, c | lt(a, b) && lt(b, c) ensures lt(a, c) {
      RowTransitive(sort, a, b, c);
    }
    forall a, b, c | lt(a, c) ensures lt(a, b) || lt(b, c) {
      RowLaws(sort, a, b); RowLaws(sort, b, c); RowLaws(sort, a, c);
      if !lt(a, b) && !lt(b, c) && (lt(c, b) || lt(b, a)) { RowTransitive(sort, c, b, a); }
    }
  }

  // ---- strictly sorted sequences ----

  ghost predicate Sorted(lt: Lt, s: seq<Row>) {
    forall i, j :: 0 <= i < j < |s| ==> lt(s[i], s[j])
  }

  /** The first index whose row is not below `key`. */
  function LowerBound(lt: Lt, s: seq<Row>, key: Row): (i: nat)
    ensures i <= |s|
    ensures forall j :: 0 <= j < i ==> lt(s[j], key)
    ensures i < |s| ==> !lt(s[i], key)
  {
    if s == [] || !lt(s[0], key) then 0 else 1 + LowerBound(lt, s[1..], key)
  }

  /** Does the lower bound land on a row with the same key? */
  predicate Hit(lt: Lt, s: seq<Row>, key: Row) {
    var i := LowerBound(lt, s, key);
    i < |s| && !lt(key, s[i])
  }

  function InsertAt(s: seq<Row>, i: nat, hit: bool, key: Row): seq<Row>
    requires i <= |s| && (hit ==> i < |s|)
  {
    if hit then s[i := key] else s[..i] + [key] + s[i..]
  }

  function RemoveAt(s: seq<Row>, i: nat, hit: bool): seq<Row>
    requires i <= |s| && (hit ==> i < |s|)
  {
    if hit then s[..i] + s[i + 1..] else s
  }

  /** Set insertion: overwrite the row with the same key, else insert in order. */
  function Insert(lt: Lt, s: seq<Row>, key: Row): seq<Row> {
    InsertAt(s, LowerBound(lt, s, key), Hit(lt, s, key), key)
  }

  /** Set removal by key. */
  function Remove(lt: Lt, s: seq<Row>, key: Row): seq<Row> {
    RemoveAt(s, LowerBound(lt, s, key), Hit(lt, s, key))
  }

  function Lookup(lt: Lt, s: seq<Row>, key: Row): Option<Row> {
    if Hit(lt, s, key) then Some(s[LowerBound(lt, s, key)]) else None
  }

  /** On a sorted sequence the lower bound is characterised by its two sides. */
  lemma LowerBoundUnique(lt: Lt, s: seq<Row>, key: Row, i: nat)
    requires StrictWeak(lt) && Sorted(lt, s) && i <= |s|
    requires i > 0 ==> lt(s[i - 1], key)
    requires i < |s| ==> !lt(s[i], key)
    ensures LowerBound(lt, s, key) == i
  {
    AllLaws(lt);
  }

  lemma HitIffPresent(lt: Lt, s: seq<Row>, key: Row)
    requires StrictWeak(lt) && Sorted(lt, s)
    ensures Hit(lt, s, key) <==> exists r :: r in s && SameKey(lt, r, key)
    ensures Lookup(lt, s, key) == None || SameKey(lt, Lookup(lt, s, key).value, key)
    ensures forall r :: Lookup(lt, s, key) == Some(r) <==> r in s && SameKey(lt, r, key)
  {
    AllLaws(lt);
    var i := LowerBound(lt, s, key);
    if Hit(lt, s, key) {
      assert s[i] in s && SameKey(lt, s[i], key);
    }
  }

  /** The rows after an update, by index. */
  lemma {:induction false} InsertedRows(s: seq<Row>, i: nat, hit: bool, key: Row)
    requires i <= |s| && (hit ==> i < |s|)
    ensures var t := InsertAt(s, i, hit, key);
      && |t| == |s| + (if hit then 0 else 1)
      && t[i] == key
      && (forall j :: 0 <= j < i ==> t[j] == s[j])
      && (forall j :: i < j < |t| ==> t[j] == if hit then s[j] else s[j - 1])
      && (forall r :: r in t ==> r == key || r in s)
      && (forall j :: 0 <= j < |s| && !(hit && j == i) ==> s[j] in t)
  {
    var t := InsertAt(s, i, hit, key);
    if hit { UpdatedMembers(s, i, key); } else { SplicedMembers(s, i, key); }
  }

  lemma UpdatedMembers(s: seq<Row>, i: nat, key: Row)
    requires i < |s|
    ensures var t := s[i := key];
      && (forall r :: r in t ==> r == key || r in s)
      && (forall j :: 0 <= j < |s| && j != i ==> s[j] in t)
  {
    var t := s[i := key];
    forall j | 0 <= j < |s| && j != i ensures s[j] in t { assert t[j] == s[j]; }
  }

  lemma SplicedMembers(s: seq<Row>, i: nat, key: Row)
    requires i <= |s|
    ensures var t := s[..i] + [key] + s[i..];
      && (forall r :: r in t ==> r == key || r in s)
      && (forall j :: 0 <= j < |s| ==> s[j] in t)
  {
    var t := s[..i] + [key] + s[i..];
    forall j | 0 <= j < |s| ensures s[j] in t { if j < i { assert t[j] == s[j]; } else { assert t[j + 1] == s[j]; } }
  }

  /** Insertion keeps the order. */
  lemma {:induction false} InsertSorted(lt: Lt, s: seq<Row>, key: Row)
    requires StrictWeak(lt) && Sorted(lt, s)
    ensures Sorted(lt, Insert(lt, s, key))
  {
    var (i, hit, t) := (LowerBound(lt, s, key), Hit(lt, s, key), Insert(lt, s, key));
    AllLaws(lt);
    InsertedRows(s, i, hit, key);
    hide InsertAt;
    hide LowerBound;
    assert forall j :: i < j < |t| ==> lt(key, t[j]);
  }

  /** Insertion and removal act as update and erasure of a finite map from keys to rows. */
  lemma {:induction false} InsertActsAsUpdate(lt: Lt, s: seq<Row>, key: Row, probe: Row)
    requires StrictWeak(lt) && Sorted(lt, s)
    ensures Sorted(lt, Insert(lt, s, key))
    ensures |Insert(lt, s, key)| == |s| + if Hit(lt, s, key) then 0 else 1
    ensures Lookup(lt, Insert(lt, s, key), probe)
         == if SameKey(lt, key, probe) then Some(key) else Lookup(lt, s, probe)
  {
    var (i, hit, t) := (LowerBound(lt, s, key), Hit(lt, s, key), Insert(lt, s, key));
    InsertSorted(lt, s, key);
    InsertedRows(s, i, hit, key);
    HitIffPresent(lt, t, probe);
    HitIffPresent(lt, s, probe);
    assert t[i] == key;
    if SameKey(lt, key, probe) {
      assert Lookup(lt, t, probe) == Some(key);
    } else {
      if hit {
        Laws(lt, s[i], key, probe);
        Laws(lt, probe, key, s[i]);
        Laws(lt, key, s[i], probe);
        Laws(lt, probe, s[i], key);
      }
      assert forall r :: (r in s && SameKey(lt, r, probe)) <==> (r in t && SameKey(lt, r, probe));
    }
  }

  lemma {:induction false} RemoveActsAsErasure(lt: Lt, s: seq<Row>, key: Row, probe: Row)
    requires StrictWeak(lt) && Sorted(lt, s)
    ensures Sorted(lt, Remove(lt, s, key))
    ensures |Remove(lt, s, key)| == |s| - if Hit(lt, s, key) then 1 else 0
    ensures Lookup(lt, Remove(lt, s, key), probe)
         == if SameKey(lt, key, probe) then None else Lookup(lt, s, probe)
  {
    AllLaws(lt);
    var t := Remove(lt, s, key);
    HitIffPresent(lt, t, probe);
    HitIffPresent(lt, s, probe);
  }
}
