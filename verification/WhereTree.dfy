/** The where-tree passes of rust/src/builder.rs that only rearrange or drop conditions:
    flattening, alias numbering, and stripping of correlated subqueries. */
module WhereTree {
  import opened Values
  import opened Lists

  type Bytes = seq<Byte>

  datatype Op = Eq | Ne | Lt | Le | Gt | Ge | Like | NotLike | ILike | NotILike | In | NotIn | Is | IsNot

  datatype Lit =
    | LNull | LBool(b: bool) | LInt(i: I64) | LNumber(n: Double) | LStr(s: Bytes) | LArray(elems: seq<Lit>)

  datatype Position = Column(name: string) | Literal(lit: Lit)

  datatype SimpleCond = SimpleCond(left: Position, op: Op, right: Position)

  /** A subquery condition is a named gate. */
  datatype Where =
    | Simple(sc: SimpleCond)
    | Csq(alias: Option<string>, gate: nat)
    | And(conds: seq<Where>)
    | Or(conds: seq<Where>)

  predicate Leaf(c: Where) {
    c.Simple? || c.Csq?
  }

  function Parts(c: Where): nat {
    if Leaf(c) then 0 else |c.conds|
  }

  /** The truth of a tree under a truth assignment to its leaves. */
  predicate Holds(c: Where, v: Where -> bool) {
    match c
    case Simple(_) => v(c)
    case Csq(_, _) => v(c)
    case And(cs) => forall i :: 0 <= i < |cs| ==> Holds(cs[i], v)
    case Or(cs) => exists i :: 0 <= i < |cs| && Holds(cs[i], v)
  }

  /** Leaves, left to right. */
  function Leaves(c: Where): seq<Where>
    decreases c, Parts(c) + 1
  {
    if Leaf(c) then [c] else LeavesUpTo(c, Parts(c))
  }

  function LeavesUpTo(c: Where, k: nat): seq<Where>
    requires k <= Parts(c)
    decreases c, k
  {
    if k == 0 then [] else LeavesUpTo(c, k - 1) + Leaves(c.conds[k - 1])
  }

  function LeavesOf(cs: seq<Where>): seq<Where> {
    if cs == [] then [] else LeavesOf(cs[..|cs| - 1]) + Leaves(cs[|cs| - 1])
  }

  lemma LeavesSnoc(cs: seq<Where>, c: Where)
    ensures LeavesOf(cs + [c]) == LeavesOf(cs) + Leaves(c)
  {
    assert (cs + [c])[..|cs|] == cs;
  }

  lemma {:induction false} LeavesConcat(a: seq<Where>, b: seq<Where>)
    ensures LeavesOf(a + b) == LeavesOf(a) + LeavesOf(b)
  {
    hide *;
    LeavesNone();
    if b == [] {
      assert a + b == a && LeavesOf(a) + [] == LeavesOf(a);
    } else {
      var (front, c) := (b[..|b| - 1], b[|b| - 1]);
      LeavesConcat(a, front);
      LeavesSnoc(a + front, c);
      LeavesSnoc(front, c);
      assert a + b == (a + front) + [c] && b == front + [c];
      assert LeavesOf(a) + (LeavesOf(front) + Leaves(c)) == LeavesOf(a) + LeavesOf(front) + Leaves(c);
    }
  }

  lemma LeavesNone()
    ensures LeavesOf([]) == []
  {
  }

  lemma {:induction false} LeavesList(c: Where, k: nat)
    requires !Leaf(c) && k <= |c.conds|
    ensures LeavesUpTo(c, k) == LeavesOf(c.conds[..k])
  {
    if k > 0 {
      LeavesList(c, k - 1);
      LeavesSnoc(c.conds[..k - 1], c.conds[k - 1]);
      assert c.conds[..k] == c.conds[..k - 1] + [c.conds[k - 1]];
    }
  }

  // ---- flatten_condition ----

  predicate SameOp(c: Where, d: Where) {
    (c.And? && d.And?) || (c.Or? && d.Or?)
  }

  /** `flatten_condition`: splice same-operator children one level, drop what flattens away,
      unwrap a sole survivor. */
  function Flatten(c: Where): Option<Where>
    decreases c, Parts(c) + 1
  {
    if Leaf(c) then Some(c)
    else
      var flat := FlatUpTo(c, Parts(c));
      if |flat| == 0 then None
      else if |flat| == 1 then Some(flat[0])
      else if c.And? then Some(And(flat)) else Some(Or(flat))
  }

  function FlatUpTo(c: Where, k: nat): seq<Where>
    requires k <= Parts(c)
    decreases c, k
  {
    if k == 0 then []
    else
      var d := c.conds[k - 1];
      FlatUpTo(c, k - 1) + (if SameOp(c, d) then KidsUpTo(d, Parts(d)) else ListOf(Flatten(d)))
  }

  /** The children of a spliced node, each flattened once. */
  function KidsUpTo(d: Where, m: nat): seq<Where>
    requires m <= Parts(d)
    decreases d, m
  {
    if m == 0 then [] else KidsUpTo(d, m - 1) + ListOf(Flatten(d.conds[m - 1]))
  }

  /** Flattening keeps every leaf, in order, on every tree. */
  lemma {:induction false} FlattenLeaves(c: Where)
    ensures LeavesOf(ListOf(Flatten(c))) == Leaves(c)
    decreases c, Parts(c) + 1
  {
    if Leaf(c) {
      LeavesSnoc([], c);
      assert [] + [c] == [c];
    } else {
      FlatLeaves(c, Parts(c));
      WrapLeaves(c);
    }
  }

  lemma {:induction false} WrapLeaves(c: Where)
    requires !Leaf(c)
    ensures LeavesOf(ListOf(Flatten(c))) == LeavesOf(FlatUpTo(c, Parts(c)))
  {
    var flat := FlatUpTo(c, Parts(c));
    if |flat| > 1 {
      var w := if c.And? then And(flat) else Or(flat);
      LeavesList(w, |flat|);
      assert flat[..|flat|] == flat;
      LeavesSnoc([], w);
      assert [] + [w] == [w];
    } else if |flat| == 1 {
      assert ListOf(Flatten(c)) == flat;
    }
  }

  lemma {:induction false} FlatLeaves(c: Where, k: nat)
    requires !Leaf(c) && k <= Parts(c)
    ensures LeavesOf(FlatUpTo(c, k)) == LeavesUpTo(c, k)
    decreases c, k
  {
    hide *;
    PartsIs(c);
    FlatStep(c, k);
    LeavesStep(c, k);
    LeavesNone();
    if k > 0 {
      var d := c.conds[k - 1];
      FlatLeaves(c, k - 1);
      SameOpIs(c, d);
      LeavesWhole(d);
      if SameOp(c, d) {
        KidsLeaves(d, Parts(d));
        LeavesConcat(FlatUpTo(c, k - 1), KidsUpTo(d, Parts(d)));
      } else {
        FlattenLeaves(d);
        LeavesConcat(FlatUpTo(c, k - 1), ListOf(Flatten(d)));
      }
    }
  }

  lemma PartsIs(c: Where)
    ensures Parts(c) == if Leaf(c) then 0 else |c.conds|
    ensures !Leaf(c) <==> c.And? || c.Or?
  {
  }

  lemma SameOpIs(c: Where, d: Where)
    ensures SameOp(c, d) <==> (c.And? && d.And?) || (c.Or? && d.Or?)
    ensures SameOp(c, d) ==> !Leaf(d) && d.And? == c.And?
  {
  }

  lemma FlatStep(c: Where, k: nat)
    requires k <= Parts(c)
    ensures k == 0 ==> FlatUpTo(c, k) == []
    ensures k > 0 ==> !Leaf(c) && |c.conds| >= k
    ensures k > 0 ==> var d := c.conds[k - 1];
      FlatUpTo(c, k) == FlatUpTo(c, k - 1) + (if SameOp(c, d) then KidsUpTo(d, Parts(d)) else ListOf(Flatten(d)))
  {
  }

  lemma LeavesStep(c: Where, k: nat)
    requires k <= Parts(c)
    ensures k == 0 ==> LeavesUpTo(c, k) == []
    ensures k > 0 ==> !Leaf(c) && |c.conds| >= k && LeavesUpTo(c, k) == LeavesUpTo(c, k - 1) + Leaves(c.conds[k - 1])
  {
  }

  lemma LeavesWhole(c: Where)
    ensures !Leaf(c) ==> Leaves(c) == LeavesUpTo(c, Parts(c))
  {
  }

  lemma {:induction false} KidsLeaves(d: Where, m: nat)
    requires !Leaf(d) && m <= Parts(d)
    ensures LeavesOf(KidsUpTo(d, m)) == LeavesUpTo(d, m)
    decreases d, m
  {
    if m > 0 {
      KidsLeaves(d, m - 1);
      FlattenLeaves(d.conds[m - 1]);
      LeavesConcat(KidsUpTo(d, m - 1), ListOf(Flatten(d.conds[m - 1])));
    }
  }

  predicate NoEmpty(c: Where) {
    !Leaf(c) ==> |c.conds| > 0 && forall i :: 0 <= i < |c.conds| ==> NoEmpty(c.conds[i])
  }

  predicate AllNoEmpty(cs: seq<Where>) {
    forall i :: 0 <= i < |cs| ==> NoEmpty(cs[i])
  }

  predicate Leafless(c: Where) {
    Leaves(c) == []
  }

  lemma {:induction false} NoEmptyHasLeaf(c: Where)
    requires NoEmpty(c)
    ensures !Leafless(c)
  {
    if !Leaf(c) {
      NoEmptyHasLeaf(c.conds[Parts(c) - 1]);
      LeavesWhole(c);
      LeavesStep(c, Parts(c));
    }
  }

  lemma {:induction false} NoLeavesNoList(cs: seq<Where>)
    requires AllNoEmpty(cs) && LeavesOf(cs) == []
    ensures cs == []
  {
    if cs != [] { NoEmptyHasLeaf(cs[|cs| - 1]); }
  }

  /** What flattening returns has no empty node left. */
  lemma {:induction false} FlattenNoEmpty(c: Where)
    ensures Flatten(c).Some? ==> NoEmpty(Flatten(c).value)
    decreases c, Parts(c) + 1
  {
    if !Leaf(c) { FlatNoEmpty(c, Parts(c)); }
  }

  lemma {:induction false} FlatNoEmpty(c: Where, k: nat)
    requires k <= Parts(c)
    ensures AllNoEmpty(FlatUpTo(c, k))
    decreases c, k
  {
    if k > 0 {
      var d := c.conds[k - 1];
      FlatNoEmpty(c, k - 1);
      if SameOp(c, d) { KidsNoEmpty(d, Parts(d)); } else { FlattenNoEmpty(d); }
    }
  }

  lemma {:induction false} KidsNoEmpty(d: Where, m: nat)
    requires m <= Parts(d)
    ensures AllNoEmpty(KidsUpTo(d, m))
    decreases d, m
  {
    if m > 0 {
      KidsNoEmpty(d, m - 1);
      FlattenNoEmpty(d.conds[m - 1]);
    }
  }

  /** Exactly the trees without a leaf flatten away. */
  lemma {:induction false} FlattensAway(c: Where)
    ensures Flatten(c).None? <==> Leafless(c)
  {
    hide *;
    FlattenLeaves(c);
    FlattenNoEmpty(c);
    ListIs(Flatten(c));
    LeavesNone();
    LeaflessIs(c);
    if Flatten(c).Some? {
      NoEmptyHasLeaf(Flatten(c).value);
      LeaflessIs(Flatten(c).value);
      LeavesSnoc([], Flatten(c).value);
      assert [] + [Flatten(c).value] == [Flatten(c).value];
    }
  }

  lemma LeaflessIs(c: Where)
    ensures Leafless(c) <==> Leaves(c) == []
  {
  }

  /** A list read as a conjunction or a disjunction. */
  predicate Joined(isAnd: bool, cs: seq<Where>, v: Where -> bool) {
    if isAnd then forall i :: 0 <= i < |cs| ==> Holds(cs[i], v) else exists i :: 0 <= i < |cs| && Holds(cs[i], v)
  }

  lemma {:induction false} JoinedConcat(isAnd: bool, a: seq<Where>, b: seq<Where>, v: Where -> bool)
    ensures Joined(isAnd, a + b, v) == if isAnd then Joined(isAnd, a, v) && Joined(isAnd, b, v)
      else Joined(isAnd, a, v) || Joined(isAnd, b, v)
  {
    var s := a + b;
    assert forall i :: 0 <= i < |a| ==> s[i] == a[i];
    assert forall i :: 0 <= i < |b| ==> s[|a| + i] == b[i];
    if isAnd {
      if Joined(isAnd, s, v) {
        forall i | 0 <= i < |b| ensures Holds(b[i], v) { assert Holds(s[|a| + i], v); }
      }
    } else {
      if Joined(isAnd, b, v) { var i :| 0 <= i < |b| && Holds(b[i], v); assert Holds(s[|a| + i], v); }
      if Joined(isAnd, s, v) {
        var i :| 0 <= i < |s| && Holds(s[i], v);
        assert i < |a| ==> Holds(a[i], v);
        assert i >= |a| ==> Holds(b[i - |a|], v);
      }
    }
  }

  lemma JoinedOne(isAnd: bool, c: Where, v: Where -> bool)
    ensures Joined(isAnd, [c], v) == Holds(c, v)
  {
    assert [c][0] == c;
    if Joined(isAnd, [c], v) && isAnd { assert Holds([c][0], v); }
  }

  // ---- what flattening preserves, exactly ----

  function Everything(): Where -> bool {
    (_: Where) => true
  }

  function Nothing(): Where -> bool {
    (_: Where) => false
  }

  /** A tree's meaning depends on its leaves only. */
  lemma {:induction false} HoldsByLeaves(c: Where, v: Where -> bool, w: Where -> bool)
    requires forall x :: x in Leaves(c) ==> v(x) == w(x)
    ensures Holds(c, v) == Holds(c, w)
  {
    if Leaf(c) {
      assert c in Leaves(c);
    } else {
      forall i | 0 <= i < |c.conds| ensures Holds(c.conds[i], v) == Holds(c.conds[i], w) {
        PartLeaves(c, i);
        HoldsByLeaves(c.conds[i], v, w);
      }
    }
  }

  /** A leaf of a part is a leaf of the whole. */
  lemma {:induction false} PartLeaves(c: Where, i: nat)
    requires !Leaf(c) && i < |c.conds|
    ensures forall x :: x in Leaves(c.conds[i]) ==> x in Leaves(c)
  {
    PartLeavesUpTo(c, i, |c.conds|);
  }

  lemma {:induction false} PartLeavesUpTo(c: Where, i: nat, k: nat)
    requires !Leaf(c) && i < k <= |c.conds|
    ensures forall x :: x in Leaves(c.conds[i]) ==> x in LeavesUpTo(c, k)
    decreases k
  {
    if i < k - 1 { PartLeavesUpTo(c, i, k - 1); }
  }

  /** Without an empty node, all leaves true make a tree true, and all leaves false make it false. */
  lemma {:induction false} NoEmptyVaries(c: Where, v: Where -> bool)
    requires NoEmpty(c)
    ensures (forall x :: x in Leaves(c) ==> v(x)) ==> Holds(c, v)
    ensures (forall x :: x in Leaves(c) ==> !v(x)) ==> !Holds(c, v)
  {
    if Leaf(c) {
      assert c in Leaves(c);
    } else {
      forall i | 0 <= i < |c.conds|
        ensures (forall x :: x in Leaves(c) ==> v(x)) ==> Holds(c.conds[i], v)
        ensures (forall x :: x in Leaves(c) ==> !v(x)) ==> !Holds(c.conds[i], v)
      {
        PartLeaves(c, i);
        NoEmptyVaries(c.conds[i], v);
      }
      if forall x :: x in Leaves(c) ==> v(x) { assert Holds(c.conds[0], v); }
      if forall x :: x in Leaves(c) ==> !v(x) { assert !Holds(c.conds[0], v); }
    }
  }

  /** The value of a tree without leaves. */
  predicate Fixed(c: Where) {
    Holds(c, Everything())
  }

  /** In every node that has a leaf, each part without one is a unit of the node: true under an
      AND, false under an OR. */
  predicate Neutral(c: Where) {
    !Leaf(c) && !Leafless(c) ==>
      forall i :: 0 <= i < |c.conds| ==>
        if Leafless(c.conds[i]) then Fixed(c.conds[i]) == c.And? else Neutral(c.conds[i])
  }

  lemma NeutralAt(c: Where, i: nat)
    requires !Leaf(c) && !Leafless(c) && Neutral(c) && i < |c.conds|
    ensures Leafless(c.conds[i]) ==> Fixed(c.conds[i]) == c.And?
    ensures Neutral(c.conds[i])
  {
  }

  lemma FixedHolds(c: Where, v: Where -> bool)
    requires Leafless(c)
    ensures Holds(c, v) == Fixed(c)
  {
    HoldsByLeaves(c, v, Everything());
  }

  /** Flattening preserves the meaning of every neutral tree with a leaf. */
  lemma {:induction false} FlattenMeans(c: Where, v: Where -> bool)
    requires !Leafless(c) && Neutral(c)
    ensures Flatten(c).Some? && Holds(Flatten(c).value, v) == Holds(c, v)
    decreases c, Parts(c) + 1
  {
    FlattensAway(c);
    if !Leaf(c) {
      FlatMeans(c, Parts(c), v);
      var flat := FlatUpTo(c, Parts(c));
      assert c.conds[..Parts(c)] == c.conds;
      if |flat| == 1 { JoinedOne(c.And?, flat[0], v); assert flat == [flat[0]]; }
    }
  }

  lemma {:induction false} FlatMeans(c: Where, k: nat, v: Where -> bool)
    requires !Leaf(c) && !Leafless(c) && Neutral(c) && k <= Parts(c)
    ensures Joined(c.And?, FlatUpTo(c, k), v) == Joined(c.And?, c.conds[..k], v)
    decreases c, k
  {
    hide *;
    PartsIs(c);
    FlatStep(c, k);
    if k > 0 {
      var d := c.conds[k - 1];
      NeutralAt(c, k - 1);
      FlatMeans(c, k - 1, v);
      SameOpIs(c, d);
      assert c.conds[..k] == c.conds[..k - 1] + [d];
      JoinedConcat(c.And?, c.conds[..k - 1], [d], v);
      JoinedOne(c.And?, d, v);
      if SameOp(c, d) {
        PartsIs(d);
        JoinedConcat(c.And?, FlatUpTo(c, k - 1), KidsUpTo(d, Parts(d)), v);
        if Leafless(d) {
          FixedHolds(d, v);
          KidsGone(d);
          JoinedNone(c.And?, v);
        } else {
          KidsMean(d, Parts(d), v);
          HoldsJoined(d, v);
          assert d.conds[..Parts(d)] == d.conds;
        }
      } else {
        JoinedConcat(c.And?, FlatUpTo(c, k - 1), ListOf(Flatten(d)), v);
        FlattenedPart(c.And?, d, v);
      }
    } else {
      assert c.conds[..0] == [];
    }
  }

  /** A part, flattened or dropped, counts for what it means. */
  lemma {:induction false} FlattenedPart(isAnd: bool, d: Where, v: Where -> bool)
    requires Neutral(d) && (Leafless(d) ==> Fixed(d) == isAnd)
    ensures Joined(isAnd, ListOf(Flatten(d)), v) == Holds(d, v)
    decreases d, Parts(d) + 2
  {
    hide *;
    FlattensAway(d);
    ListIs(Flatten(d));
    if Leafless(d) {
      FixedHolds(d, v);
      JoinedNone(isAnd, v);
    } else {
      FlattenMeans(d, v);
      JoinedOne(isAnd, Flatten(d).value, v);
    }
  }

  lemma {:induction false} KidsGone(d: Where)
    requires !Leaf(d) && Leafless(d)
    ensures KidsUpTo(d, Parts(d)) == []
  {
    hide *;
    KidsLeaves(d, Parts(d));
    KidsNoEmpty(d, Parts(d));
    LeavesWhole(d);
    LeaflessIs(d);
    NoLeavesNoList(KidsUpTo(d, Parts(d)));
  }

  lemma {:induction false} KidsMean(d: Where, m: nat, v: Where -> bool)
    requires !Leaf(d) && !Leafless(d) && Neutral(d) && m <= Parts(d)
    ensures Joined(d.And?, KidsUpTo(d, m), v) == Joined(d.And?, d.conds[..m], v)
    decreases d, m
  {
    hide *;
    PartsIs(d);
    KidsStep(d, m);
    if m > 0 {
      var e := d.conds[m - 1];
      KidsMean(d, m - 1, v);
      NeutralAt(d, m - 1);
      assert d.conds[..m] == d.conds[..m - 1] + [e];
      JoinedConcat(d.And?, d.conds[..m - 1], [e], v);
      JoinedConcat(d.And?, KidsUpTo(d, m - 1), ListOf(Flatten(e)), v);
      JoinedOne(d.And?, e, v);
      FlattenedPart(d.And?, e, v);
    } else {
      assert d.conds[..0] == [];
    }
  }

  lemma KidsStep(d: Where, m: nat)
    requires m <= Parts(d)
    ensures m == 0 ==> KidsUpTo(d, m) == []
    ensures m > 0 ==>
      !Leaf(d) && |d.conds| >= m && KidsUpTo(d, m) == KidsUpTo(d, m - 1) + ListOf(Flatten(d.conds[m - 1]))
  {
  }

  lemma HoldsJoined(c: Where, v: Where -> bool)
    requires !Leaf(c)
    ensures Holds(c, v) == Joined(c.And?, c.conds, v)
  {
  }

  /** A flattened tree, `None` being no condition at all, means what the tree meant. */
  ghost predicate Preserved(c: Where) {
    forall v :: HoldsOpt(Flatten(c), v) == Holds(c, v)
  }

  /** The same of every subtree that has a leaf. */
  ghost predicate PreservedBelow(c: Where) {
    && (!Leafless(c) ==> Preserved(c))
    && (!Leaf(c) ==> forall i :: 0 <= i < |c.conds| ==> PreservedBelow(c.conds[i]))
  }

  lemma {:induction false} NeutralPreserved(c: Where)
    requires !Leafless(c) && Neutral(c)
    ensures Preserved(c)
  {
    forall v ensures HoldsOpt(Flatten(c), v) == Holds(c, v) { FlattenMeans(c, v); }
  }

  /** A part that is not a unit decides its node. */
  lemma {:induction false} Decided(c: Where, i: nat, v: Where -> bool)
    requires !Leaf(c) && i < |c.conds| && Leafless(c.conds[i]) && Fixed(c.conds[i]) != c.And?
    ensures Holds(c, v) == !c.And?
  {
    FixedHolds(c.conds[i], v);
  }

  /** For every tree: flattening preserves the meaning of each subtree with a leaf if and only if
      the tree is neutral. */
  lemma {:induction false} FlattenBelowIff(c: Where)
    ensures PreservedBelow(c) <==> Neutral(c)
  {
    if !Leaf(c) {
      forall i | 0 <= i < |c.conds| ensures PreservedBelow(c.conds[i]) <==> Neutral(c.conds[i]) {
        FlattenBelowIff(c.conds[i]);
      }
    }
    if Leafless(c) {
      if !Leaf(c) { LeaflessParts(c); }
    } else if Neutral(c) {
      NeutralPreserved(c);
      if !Leaf(c) { forall i | 0 <= i < |c.conds| ensures Neutral(c.conds[i]) { NeutralAt(c, i); } }
    } else {
      if PreservedBelow(c) { NotNeutralHere(c); }
    }
  }

  lemma {:induction false} LeaflessParts(c: Where)
    requires !Leaf(c) && Leafless(c)
    ensures forall i :: 0 <= i < |c.conds| ==> Leafless(c.conds[i]) && Neutral(c.conds[i])
  {
    forall i | 0 <= i < |c.conds| ensures Leafless(c.conds[i]) {
      PartLeaves(c, i);
      if Leaves(c.conds[i]) != [] { assert Leaves(c.conds[i])[0] in Leaves(c.conds[i]); }
    }
  }

  /** Where a part is not a unit, the node is constant and its flattening is not. */
  lemma {:induction false} NotNeutralHere(c: Where)
    requires !Leaf(c) && !Leafless(c) && Preserved(c)
    requires forall i :: 0 <= i < |c.conds| ==> Neutral(c.conds[i])
    ensures Neutral(c)
  {
    var v := if c.And? then Everything() else Nothing();
    assert HoldsOpt(Flatten(c), v) == Holds(c, v);
    FlattensAway(c);
    FlattenNoEmpty(c);
    NoEmptyVaries(Flatten(c).value, v);
    forall i | 0 <= i < |c.conds| && Leafless(c.conds[i]) ensures Fixed(c.conds[i]) == c.And? {
      if Fixed(c.conds[i]) != c.And? { Decided(c, i, v); }
    }
  }

  // ---- the same at the root, for trees with distinct leaves ----

  ghost predicate DistinctLeaves(c: Where) {
    NoRepeats(Leaves(c))
  }

  /** Parts of a tree with distinct leaves have distinct leaves, and share none. */
  lemma {:induction false} DistinctParts(c: Where, k: nat)
    requires !Leaf(c) && k <= |c.conds| && NoRepeats(LeavesUpTo(c, k))
    ensures forall i :: 0 <= i < k ==> DistinctLeaves(c.conds[i])
    ensures forall i, j, x :: 0 <= i < j < k && x in Leaves(c.conds[i]) ==> x !in Leaves(c.conds[j])
    decreases k
  {
    if k > 0 {
      var (a, b) := (LeavesUpTo(c, k - 1), Leaves(c.conds[k - 1]));
      ConcatDistinct(a, b);
      DistinctParts(c, k - 1);
      forall i, j, x | 0 <= i < j < k && x in Leaves(c.conds[i]) ensures x !in Leaves(c.conds[j]) {
        if j == k - 1 { PartLeavesUpTo(c, i, k - 1); }
      }
    }
  }

  lemma ConcatDistinct(a: seq<Where>, b: seq<Where>)
    requires NoRepeats(a + b)
    ensures NoRepeats(a) && NoRepeats(b) && forall x :: x in a ==> x !in b
  {
    var s := a + b;
    forall i, j | 0 <= i < j < |a| ensures a[i] != a[j] { assert s[i] != s[j]; }
    forall i, j | 0 <= i < j < |b| ensures b[i] != b[j] { assert s[|a| + i] != s[|a| + j]; }
    forall x | x in a ensures x !in b {
      var i :| 0 <= i < |a| && a[i] == x;
      forall j | 0 <= j < |b| ensures b[j] != x { assert s[i] != s[|a| + j]; }
    }
  }

  lemma {:induction false} LeafOfPart(c: Where, l: Where, k: nat) returns (i: nat)
    requires !Leaf(c) && k <= |c.conds| && l in LeavesUpTo(c, k)
    ensures i < k && l in Leaves(c.conds[i])
    decreases k
  {
    if l in Leaves(c.conds[k - 1]) { i := k - 1; } else { i := LeafOfPart(c, l, k - 1); }
  }

  /** Changing this one leaf never changes the tree. */
  ghost predicate Dead(c: Where, l: Where) {
    forall v: Where -> bool, w: Where -> bool {:trigger Holds(c, v), Holds(c, w)} ::
      (forall x :: x != l ==> v(x) == w(x)) ==> Holds(c, v) == Holds(c, w)
  }

  /** A tree that is not neutral has a leaf it ignores. */
  lemma {:induction false} DeadLeaf(c: Where) returns (l: Where)
    requires !Leafless(c) && !Neutral(c) && DistinctLeaves(c)
    ensures l in Leaves(c) && Dead(c, l)
  {
    var i :| 0 <= i < |c.conds| && !(if Leafless(c.conds[i]) then Fixed(c.conds[i]) == c.And? else Neutral(c.conds[i]));
    if Leafless(c.conds[i]) {
      l := Leaves(c)[0];
      forall v: Where -> bool ensures Holds(c, v) == !c.And? { Decided(c, i, v); }
    } else {
      DistinctParts(c, |c.conds|);
      PartLeaves(c, i);
      l := DeadLeaf(c.conds[i]);
      DeadThrough(c, i, l);
    }
  }

  lemma {:induction false} DeadThrough(c: Where, i: nat, l: Where)
    requires !Leaf(c) && i < |c.conds| && l in Leaves(c.conds[i]) && Dead(c.conds[i], l) && DistinctLeaves(c)
    ensures Dead(c, l)
  {
    DistinctParts(c, |c.conds|);
    forall v: Where -> bool, w: Where -> bool | forall x :: x != l ==> v(x) == w(x) ensures Holds(c, v) == Holds(c, w) {
      forall j | 0 <= j < |c.conds| ensures Holds(c.conds[j], v) == Holds(c.conds[j], w) {
        if j != i {
          assert l !in Leaves(c.conds[j]);
          HoldsByLeaves(c.conds[j], v, w);
        }
      }
    }
  }

  function On(t: set<Where>): Where -> bool {
    (x: Where) => x in t
  }

  ghost function LeafSet(c: Where): set<Where> {
    set x | x in Leaves(c)
  }

  /** In a tree without empty nodes every leaf can decide: some setting of the others leaves the
      outcome to it. */
  lemma {:induction false} LiveLeaf(c: Where, l: Where) returns (t: set<Where>)
    requires NoEmpty(c) && DistinctLeaves(c) && l in Leaves(c)
    ensures Holds(c, On(t + {l})) && !Holds(c, On(t - {l}))
  {
    if Leaf(c) {
      t := {};
    } else {
      DistinctParts(c, |c.conds|);
      var i := LeafOfPart(c, l, |c.conds|);
      var u := LiveLeaf(c.conds[i], l);
      var own := LeafSet(c.conds[i]);
      t := u * own + (if c.And? then LeafSet(c) - own else {});
      LiveThrough(c, i, l, u, t);
    }
  }

  lemma {:induction false} LiveThrough(c: Where, i: nat, l: Where, u: set<Where>, t: set<Where>)
    requires !Leaf(c) && NoEmpty(c) && DistinctLeaves(c) && i < |c.conds| && l in Leaves(c.conds[i])
    requires Holds(c.conds[i], On(u + {l})) && !Holds(c.conds[i], On(u - {l}))
    requires t == u * LeafSet(c.conds[i]) + (if c.And? then LeafSet(c) - LeafSet(c.conds[i]) else {})
    ensures Holds(c, On(t + {l})) && !Holds(c, On(t - {l}))
  {
    HoldsByLeaves(c.conds[i], On(t + {l}), On(u + {l}));
    HoldsByLeaves(c.conds[i], On(t - {l}), On(u - {l}));
    forall j | 0 <= j < |c.conds| && j != i
      ensures Holds(c.conds[j], On(t + {l})) == c.And? && Holds(c.conds[j], On(t - {l})) == c.And?
    {
      PartLeaves(c, j);
      Elsewhere(c, i, j);
      NoEmptyVaries(c.conds[j], On(t + {l}));
      NoEmptyVaries(c.conds[j], On(t - {l}));
    }
  }

  lemma Elsewhere(c: Where, i: nat, j: nat)
    requires !Leaf(c) && DistinctLeaves(c) && i < |c.conds| && j < |c.conds| && i != j
    ensures forall x :: x in Leaves(c.conds[j]) ==> x !in Leaves(c.conds[i])
  {
    DistinctParts(c, |c.conds|);
  }

  /** For trees with distinct leaves: flattening preserves the meaning of the whole condition, read
      as no condition at all when everything flattens away, if and only if the tree is neutral,
      or has no leaf and is true. */
  lemma {:induction false} FlattenIff(c: Where)
    requires DistinctLeaves(c)
    ensures Preserved(c) <==> if Leafless(c) then Fixed(c) else Neutral(c)
  {
    FlattensAway(c);
    if Leafless(c) {
      forall v ensures Holds(c, v) == Fixed(c) { FixedHolds(c, v); }
      assert HoldsOpt(Flatten(c), Everything());
    } else if Neutral(c) {
      NeutralPreserved(c);
    } else {
      Distinguished(c);
    }
  }

  lemma {:induction false} Distinguished(c: Where)
    requires !Leafless(c) && !Neutral(c) && DistinctLeaves(c)
    ensures !Preserved(c)
  {
    hide *;
    var l := DeadLeaf(c);
    FlattensAway(c);
    FlattenNoEmpty(c);
    var w := Flatten(c).value;
    SameLeaves(c);
    var t := LiveLeaf(w, l);
    OffLeaf(t, l);
    DeadIs(c, l, On(t + {l}), On(t - {l}));
    OptIs(Flatten(c), On(t + {l}));
    OptIs(Flatten(c), On(t - {l}));
    if Preserved(c) {
      PreservedAt(c, On(t + {l}));
      PreservedAt(c, On(t - {l}));
    }
  }

  lemma OffLeaf(t: set<Where>, l: Where)
    ensures forall x :: x != l ==> On(t + {l})(x) == On(t - {l})(x)
  {
  }

  lemma DeadIs(c: Where, l: Where, v: Where -> bool, w: Where -> bool)
    requires Dead(c, l) && forall x :: x != l ==> v(x) == w(x)
    ensures Holds(c, v) == Holds(c, w)
  {
  }

  lemma PreservedAt(c: Where, v: Where -> bool)
    requires Preserved(c)
    ensures HoldsOpt(Flatten(c), v) == Holds(c, v)
  {
  }

  lemma {:induction false} SameLeaves(c: Where)
    requires Flatten(c).Some?
    ensures Leaves(Flatten(c).value) == Leaves(c)
    ensures DistinctLeaves(c) ==> DistinctLeaves(Flatten(c).value)
  {
    FlattenLeaves(c);
    LeavesSnoc([], Flatten(c).value);
    assert [] + [Flatten(c).value] == [Flatten(c).value];
  }

  /** An empty AND is true, but flattening drops it, even from under an OR. */
  lemma EmptyAndExample(p: Where, v: Where -> bool)
    requires p.Simple? && !v(p)
    ensures var c := Or([And([]), p]); Holds(c, v) && Flatten(c) == Some(p) && !Holds(p, v)
  {
    var c := Or([And([]), p]);
    assert Holds(c.conds[0], v);
    assert FlatUpTo(And([]), 0) == [];
    assert Flatten(And([])) == None;
    assert FlatUpTo(c, 1) == FlatUpTo(c, 0) + ListOf(Flatten(And([]))) == [];
    assert FlatUpTo(c, 2) == FlatUpTo(c, 1) + ListOf(Flatten(p)) == [p];
  }

  // ---- uniquify_condition_aliases ----

  function Digit(d: nat): char
    requires d < 10
  {
    "0123456789"[d]
  }

  function Decimal(n: nat): string {
    if n < 10 then [Digit(n)] else Decimal(n / 10) + [Digit(n % 10)]
  }

  function Named(alias: Option<string>, n: nat): string {
    (if alias.Some? then alias.value else "") + "_" + Decimal(n)
  }

  /** Number the subqueries of a tree from `n` on, in tree order. */
  function Uniquify(c: Where, n: nat): (Where, nat)
    decreases c, Parts(c) + 1
  {
    match c
    case Simple(_) => (c, n)
    case Csq(alias, gate) => (Csq(Some(Named(alias, n)), gate), n + 1)
    case And(_) => var (cs, m) := UniquifyUpTo(c, Parts(c), n); (And(cs), m)
    case Or(_) => var (cs, m) := UniquifyUpTo(c, Parts(c), n); (Or(cs), m)
  }

  function UniquifyUpTo(c: Where, k: nat, n: nat): (seq<Where>, nat)
    requires k <= Parts(c)
    decreases c, k
  {
    if k == 0 then ([], n)
    else
      var (cs, m) := UniquifyUpTo(c, k - 1, n);
      var (d, m') := Uniquify(c.conds[k - 1], m);
      (cs + [d], m')
  }

  /** The subquery leaves of a list. */
  function Gates(cs: seq<Where>): seq<Where> {
    if cs == [] then [] else Gates(cs[..|cs| - 1]) + (if cs[|cs| - 1].Csq? then [cs[|cs| - 1]] else [])
  }

  lemma {:induction false} GatesConcat(a: seq<Where>, b: seq<Where>)
    ensures Gates(a + b) == Gates(a) + Gates(b)
  {
    if b == [] {
      assert a + b == a;
    } else {
      GatesConcat(a, b[..|b| - 1]);
      assert (a + b)[..|a + b| - 1] == a + b[..|b| - 1];
    }
  }

  /** `gather_csq_conditions` */
  function Gathered(c: Where): seq<Where> {
    Gates(Leaves(c))
  }

  /** The numbered tree's subqueries are the old ones in order, the `i`-th named by its old name
      and `n + i`. */
  ghost predicate Numbered(old_: seq<Where>, new_: seq<Where>, n: nat) {
    && |new_| == |old_|
    && forall i :: 0 <= i < |old_| ==> old_[i].Csq? && new_[i] == Csq(Some(Named(old_[i].alias, n + i)), old_[i].gate)
  }

  lemma NumberedConcat(a: seq<Where>, a': seq<Where>, b: seq<Where>, b': seq<Where>, n: nat)
    requires Numbered(a, a', n) && Numbered(b, b', n + |a|)
    ensures Numbered(a + b, a' + b', n)
  {
  }

  lemma {:induction false} UniquifyNumbers(c: Where, n: nat)
    ensures Numbered(Gathered(c), Gathered(Uniquify(c, n).0), n) && Uniquify(c, n).1 == n + |Gathered(c)|
    decreases c, Parts(c) + 1
  {
    hide *;
    PartsIs(c);
    if !Leaf(c) {
      UpToNumbers(c, Parts(c), n);
      var d := Uniquify(c, n).0;
      UniquifyIs(c, n);
      UpToLength(c, Parts(c), n);
      PartsIs(d);
      LeavesList(c, Parts(c));
      LeavesList(d, Parts(d));
      LeavesWhole(c);
      LeavesWhole(d);
      GatheredIs(c);
      GatheredIs(d);
      assert c.conds[..Parts(c)] == c.conds && d.conds[..Parts(d)] == d.conds;
    } else {
      LeafNumbers(c, n);
    }
  }

  lemma UniquifyIs(c: Where, n: nat)
    requires !Leaf(c)
    ensures var (cs, m) := UniquifyUpTo(c, Parts(c), n); Uniquify(c, n) == (if c.And? then And(cs) else Or(cs), m)
  {
  }

  lemma LeafNumbers(c: Where, n: nat)
    requires Leaf(c)
    ensures Numbered(Gathered(c), Gathered(Uniquify(c, n).0), n) && Uniquify(c, n).1 == n + |Gathered(c)|
  {
    assert [c][..0] == [] && [Uniquify(c, n).0][..0] == [];
    assert Gates([]) == [];
    assert Gates([c]) == if c.Csq? then [c] else [];
  }

  lemma {:induction false} UpToLength(c: Where, k: nat, n: nat)
    requires k <= Parts(c)
    ensures |UniquifyUpTo(c, k, n).0| == k
  {
    if k > 0 { UpToLength(c, k - 1, n); }
  }

  lemma {:induction false} UpToNumbers(c: Where, k: nat, n: nat)
    requires !Leaf(c) && k <= Parts(c)
    ensures var (cs, m) := UniquifyUpTo(c, k, n);
      Numbered(Gates(LeavesOf(c.conds[..k])), Gates(LeavesOf(cs)), n) && m == n + |Gates(LeavesOf(c.conds[..k]))|
    decreases c, k
  {
    hide *;
    PartsIs(c);
    if k > 0 {
      UpToNumbers(c, k - 1, n);
      var (cs, m) := UniquifyUpTo(c, k - 1, n);
      var e := c.conds[k - 1];
      UniquifyNumbers(e, m);
      UpToStep(c, k, n);
      var d := Uniquify(e, m).0;
      assert c.conds[..k] == c.conds[..k - 1] + [e];
      LeavesSnoc(c.conds[..k - 1], e);
      LeavesSnoc(cs, d);
      GatesConcat(LeavesOf(c.conds[..k - 1]), Leaves(e));
      GatesConcat(LeavesOf(cs), Leaves(d));
      GatheredIs(e);
      GatheredIs(d);
      NumberedConcat(Gates(LeavesOf(c.conds[..k - 1])), Gates(LeavesOf(cs)), Gathered(e), Gathered(d), n);
    } else {
      assert c.conds[..0] == [];
      UpToNone(c, n);
    }
  }

  lemma UpToNone(c: Where, n: nat)
    ensures UniquifyUpTo(c, 0, n) == ([], n) && LeavesOf([]) == [] && Gates([]) == [] && Numbered([], [], n)
  {
  }

  lemma UpToStep(c: Where, k: nat, n: nat)
    requires !Leaf(c) && 0 < k <= Parts(c)
    ensures k <= |c.conds|
    ensures var (cs, m) := UniquifyUpTo(c, k - 1, n);
      UniquifyUpTo(c, k, n) == (cs + [Uniquify(c.conds[k - 1], m).0], Uniquify(c.conds[k - 1], m).1)
  {
  }

  lemma GatheredIs(c: Where)
    ensures Gathered(c) == Gates(Leaves(c))
  {
  }

  predicate NoUnderscore(s: string) {
    '_' !in s
  }

  lemma {:induction false} DecimalClean(n: nat)
    ensures NoUnderscore(Decimal(n)) && Decimal(n) != []
  {
    if n >= 10 { DecimalClean(n / 10); }
  }

  lemma {:induction false} DecimalInjective(a: nat, b: nat)
    requires Decimal(a) == Decimal(b)
    ensures a == b
  {
    DigitsDiffer();
    DecimalLong(a);
    DecimalLong(b);
    var (x, y) := (Decimal(a), Decimal(b));
    assert x[|x| - 1] == Digit(a % 10) && y[|y| - 1] == Digit(b % 10);
    if a >= 10 && b >= 10 {
      assert x[..|x| - 1] == Decimal(a / 10) && y[..|y| - 1] == Decimal(b / 10);
      DecimalInjective(a / 10, b / 10);
    }
  }

  /** The value of a string of decimal digits. */
  function Read(s: string): int {
    if s == [] then 0 else 10 * Read(s[..|s| - 1]) + (s[|s| - 1] as int - '0' as int)
  }

  /** A name is the base name (nothing when there is none), an underscore and the number in decimal,
      without leading zeros. */
  lemma {:induction false} NamedReads(alias: Option<string>, n: nat)
    ensures var base := if alias.Some? then alias.value else "";
      && |Named(alias, n)| > |base| + 1 && Named(alias, n)[..|base|] == base && Named(alias, n)[|base|] == '_'
      && Named(alias, n)[|base| + 1..] == Decimal(n)
    ensures Read(Decimal(n)) == n && forall i :: 0 <= i < |Decimal(n)| ==> '0' <= Decimal(n)[i] <= '9'
    ensures |Decimal(n)| > 1 ==> Decimal(n)[0] != '0'
  {
    DecimalClean(n);
    DecimalReads(n);
  }

  lemma {:induction false} DecimalReads(n: nat)
    ensures Read(Decimal(n)) == n && Decimal(n) != []
    ensures forall i :: 0 <= i < |Decimal(n)| ==> '0' <= Decimal(n)[i] <= '9'
    ensures n > 0 ==> Decimal(n)[0] != '0'
  {
    DigitReads(n % 10);
    if n >= 10 {
      DecimalReads(n / 10);
      var d := Decimal(n);
      assert d[..|d| - 1] == Decimal(n / 10);
    } else {
      assert Decimal(n)[..0] == [];
    }
  }

  lemma DigitReads(d: nat)
    requires d < 10
    ensures Digit(d) as int - '0' as int == d && '0' <= Digit(d) <= '9'
  {
  }

  lemma DecimalLong(n: nat)
    ensures |Decimal(n)| == 1 <==> n < 10
  {
    if n >= 10 { DecimalClean(n / 10); }
  }

  lemma DigitsDiffer()
    ensures forall a: nat, b: nat :: a < 10 && b < 10 && Digit(a) == Digit(b) ==> a == b
  {
  }

  /** The number can be read back off the name, whatever the base name contains. */
  lemma {:induction false} NamesDiffer(a: Option<string>, i: nat, b: Option<string>, j: nat)
    requires Named(a, i) == Named(b, j)
    ensures i == j
  {
    DecimalClean(i);
    DecimalClean(j);
    var (x, y) := (if a.Some? then a.value else "", if b.Some? then b.value else "");
    SuffixUnique(x, Decimal(i), y, Decimal(j));
    DecimalInjective(i, j);
  }

  /** What follows the last underscore is determined. */
  lemma {:induction false} SuffixUnique(x: string, u: string, y: string, w: string)
    requires x + "_" + u == y + "_" + w && NoUnderscore(u) && NoUnderscore(w)
    ensures u == w
  {
    var s := x + "_" + u;
    assert s[|x|] == '_' && s[|y|] == '_';
    assert forall k :: |x| < k < |s| ==> s[k] in u && s[k] != '_';
    assert forall k :: |y| < k < |s| ==> s[k] in w && s[k] != '_';
    assert u == s[|x| + 1..] && w == s[|y| + 1..];
  }

  /** After numbering, no two subqueries of a tree share a name. */
  lemma {:induction false} AliasesDistinct(c: Where, n: nat, i: nat, j: nat)
    requires i < j < |Gathered(Uniquify(c, n).0)|
    ensures var gs := Gathered(Uniquify(c, n).0); gs[i].Csq? && gs[j].Csq? && gs[i].alias != gs[j].alias
  {
    UniquifyNumbers(c, n);
    var (old_, new_) := (Gathered(c), Gathered(Uniquify(c, n).0));
    hide *;
    NumberedAt(old_, new_, n, i);
    NumberedAt(old_, new_, n, j);
    if new_[i].alias == new_[j].alias { NamesDiffer(old_[i].alias, n + i, old_[j].alias, n + j); }
  }

  lemma NumberedAt(old_: seq<Where>, new_: seq<Where>, n: nat, i: nat)
    requires Numbered(old_, new_, n) && i < |new_|
    ensures |old_| == |new_| && old_[i].Csq? && new_[i] == Csq(Some(Named(old_[i].alias, n + i)), old_[i].gate)
  {
  }

  ghost predicate AliasBlind(v: Where -> bool) {
    forall a, b, g :: v(Csq(a, g)) == v(Csq(b, g))
  }

  /** Numbering changes names only. */
  lemma {:induction false} UniquifyMeans(c: Where, n: nat, v: Where -> bool)
    requires AliasBlind(v)
    ensures Holds(Uniquify(c, n).0, v) == Holds(c, v)
    decreases c, Parts(c) + 1
  {
    if !Leaf(c) {
      UpToLength(c, Parts(c), n);
      UpToMeans(c, Parts(c), n, v);
    }
  }

  lemma {:induction false} UpToMeans(c: Where, k: nat, n: nat, v: Where -> bool)
    requires AliasBlind(v) && !Leaf(c) && k <= Parts(c)
    ensures |UniquifyUpTo(c, k, n).0| == k
    ensures forall i :: 0 <= i < k ==> Holds(UniquifyUpTo(c, k, n).0[i], v) == Holds(c.conds[i], v)
    decreases c, k
  {
    if k > 0 {
      UpToMeans(c, k - 1, n, v);
      UniquifyMeans(c.conds[k - 1], UniquifyUpTo(c, k - 1, n).1, v);
    }
  }

  // ---- transform_filters ----

  /** `transform_filters`: what is left without subqueries, and whether any were removed. */
  function Strip(c: Where): (Option<Where>, bool)
    decreases c, Parts(c) + 1
  {
    match c
    case Simple(_) => (Some(c), false)
    case Csq(_, _) => (None, true)
    case And(_) => var (cs, r) := StripUpTo(c, Parts(c)).value; (Some(And(cs)), r)
    case Or(_) =>
      var s := StripUpTo(c, Parts(c));
      if s.None? then (None, true) else (Some(Or(s.value.0)), s.value.1)
  }

  /** The first `k` parts; `None` when a branch of an OR is gone. */
  function StripUpTo(c: Where, k: nat): (r: Option<(seq<Where>, bool)>)
    requires k <= Parts(c)
    ensures c.And? ==> r.Some?
    decreases c, k
  {
    if k == 0 then Some(([], false))
    else
      var before := StripUpTo(c, k - 1);
      if before.None? then None
      else
        var (t, r) := Strip(c.conds[k - 1]);
        if t.None? && c.Or? then None
        else Some((before.value.0 + ListOf(t), before.value.1 || r))
  }

  predicate HoldsOpt(c: Option<Where>, v: Where -> bool) {
    c.None? || Holds(c.value, v)
  }

  /** Stripping only ever weakens. */
  lemma {:induction false} StripWeakens(c: Where, v: Where -> bool)
    requires Holds(c, v)
    ensures HoldsOpt(Strip(c).0, v)
    decreases c, Parts(c) + 1
  {
    if !Leaf(c) {
      HoldsJoined(c, v);
      assert c.conds[..Parts(c)] == c.conds;
      StripUpToWeakens(c, Parts(c), v);
    }
  }

  lemma {:induction false} StripUpToWeakens(c: Where, k: nat, v: Where -> bool)
    requires !Leaf(c) && k <= Parts(c) && Joined(c.And?, c.conds[..k], v)
    ensures StripUpTo(c, k).Some? ==> Joined(c.And?, StripUpTo(c, k).value.0, v)
    decreases c, k
  {
    hide *;
    PartsIs(c);
    StripStep(c, k);
    if k > 0 && StripUpTo(c, k).Some? {
      var (before, d) := (StripUpTo(c, k - 1).value.0, c.conds[k - 1]);
      assert c.conds[..k] == c.conds[..k - 1] + [d];
      JoinedConcat(c.And?, c.conds[..k - 1], [d], v);
      JoinedOne(c.And?, d, v);
      JoinedConcat(c.And?, before, ListOf(Strip(d).0), v);
      ListIs(Strip(d).0);
      if Strip(d).0.Some? { JoinedOne(c.And?, Strip(d).0.value, v); } else { JoinedNone(c.And?, v); }
      if Joined(c.And?, c.conds[..k - 1], v) { StripUpToWeakens(c, k - 1, v); }
      if Holds(d, v) { StripWeakens(d, v); OptIs(Strip(d).0, v); }
    } else if k == 0 {
      JoinedNone(c.And?, v);
      assert c.conds[..0] == [];
    }
  }

  lemma JoinedNone(isAnd: bool, v: Where -> bool)
    ensures Joined(isAnd, [], v) == isAnd
  {
  }

  lemma OptIs(c: Option<Where>, v: Where -> bool)
    ensures HoldsOpt(c, v) <==> c.None? || Holds(c.value, v)
  {
  }

  lemma StripStep(c: Where, k: nat)
    requires !Leaf(c) && k <= Parts(c)
    ensures k == 0 ==> StripUpTo(c, k) == Some(([], false))
    ensures k > 0 && StripUpTo(c, k).Some? ==>
      && StripUpTo(c, k - 1).Some? && k <= |c.conds|
      && (c.Or? ==> Strip(c.conds[k - 1]).0.Some?)
      && StripUpTo(c, k).value == (
        StripUpTo(c, k - 1).value.0 + ListOf(Strip(c.conds[k - 1]).0),
        StripUpTo(c, k - 1).value.1 || Strip(c.conds[k - 1]).1)
  {
  }

  /** A reading of the leaves in which every subquery gate is open. */
  function Opened(v: Where -> bool): Where -> bool {
    (l: Where) => l.Csq? || v(l)
  }

  /** What is left holds exactly when the condition does with every subquery gate open. */
  lemma {:induction false} StripMeans(c: Where, v: Where -> bool)
    ensures HoldsOpt(Strip(c).0, v) <==> Holds(c, Opened(v))
    decreases c, Parts(c) + 1
  {
    if !Leaf(c) {
      StripUpToMeans(c, Parts(c), v);
      assert c.conds[..Parts(c)] == c.conds;
      HoldsJoined(c, Opened(v));
      if StripUpTo(c, Parts(c)).Some? { HoldsJoined(Strip(c).0.value, v); }
    }
  }

  lemma {:induction false} StripUpToMeans(c: Where, k: nat, v: Where -> bool)
    requires !Leaf(c) && k <= Parts(c)
    ensures StripUpTo(c, k).Some? ==>
      Joined(c.And?, StripUpTo(c, k).value.0, v) == Joined(c.And?, c.conds[..k], Opened(v))
    ensures StripUpTo(c, k).None? ==> c.Or? && Joined(c.And?, c.conds[..k], Opened(v))
    decreases c, k
  {
    hide *;
    PartsIs(c);
    StripStep(c, k);
    if StripUpTo(c, k).None? { StripGone(c, k); }
    if k > 0 {
      var d := c.conds[k - 1];
      StripUpToMeans(c, k - 1, v);
      StripMeans(d, v);
      OptIs(Strip(d).0, v);
      assert c.conds[..k] == c.conds[..k - 1] + [d];
      JoinedConcat(c.And?, c.conds[..k - 1], [d], Opened(v));
      JoinedOne(c.And?, d, Opened(v));
      if StripUpTo(c, k).Some? {
        JoinedConcat(c.And?, StripUpTo(c, k - 1).value.0, ListOf(Strip(d).0), v);
        ListIs(Strip(d).0);
        if Strip(d).0.Some? { JoinedOne(c.And?, Strip(d).0.value, v); } else { JoinedNone(c.And?, v); }
      }
    } else {
      JoinedNone(c.And?, v);
      JoinedNone(c.And?, Opened(v));
      assert c.conds[..0] == [];
    }
  }

  lemma StripGone(c: Where, k: nat)
    requires !Leaf(c) && k <= Parts(c) && StripUpTo(c, k).None?
    ensures c.Or? && 0 < k <= |c.conds|
    ensures StripUpTo(c, k - 1).None? || Strip(c.conds[k - 1]).0.None?
  {
  }

  predicate HasSubquery(c: Where) {
    match c
    case Simple(_) => false
    case Csq(_, _) => true
    case And(cs) => exists i :: 0 <= i < |cs| && HasSubquery(cs[i])
    case Or(cs) => exists i :: 0 <= i < |cs| && HasSubquery(cs[i])
  }

  /** The flag says whether there was a subquery, and none is left. */
  lemma {:induction false} StripRemoves(c: Where)
    ensures Strip(c).1 <==> HasSubquery(c)
    ensures Strip(c).0.Some? ==> !HasSubquery(Strip(c).0.value)
    decreases c, Parts(c) + 1
  {
    if !Leaf(c) { StripUpToRemoves(c, Parts(c)); }
  }

  lemma {:induction false} StripUpToRemoves(c: Where, k: nat)
    requires !Leaf(c) && k <= Parts(c)
    ensures StripUpTo(c, k).None? ==> exists i :: 0 <= i < k && HasSubquery(c.conds[i])
    ensures StripUpTo(c, k).Some? ==>
      && (StripUpTo(c, k).value.1 <==> exists i :: 0 <= i < k && HasSubquery(c.conds[i]))
      && forall i :: 0 <= i < |StripUpTo(c, k).value.0| ==> !HasSubquery(StripUpTo(c, k).value.0[i])
    decreases c, k
  {
    if k > 0 {
      StripUpToRemoves(c, k - 1);
      StripRemoves(c.conds[k - 1]);
      StripLeaves(c.conds[k - 1]);
    }
  }

  lemma StripLeaves(c: Where)
    ensures Strip(c).0.None? ==> Strip(c).1
  {
  }

  /** If nothing was removed the condition is untouched. */
  lemma {:induction false} StripExact(c: Where)
    requires !Strip(c).1
    ensures Strip(c).0 == Some(c)
    decreases c, Parts(c) + 1
  {
    if !Leaf(c) {
      StripUpToExact(c, Parts(c));
      assert c.conds[..Parts(c)] == c.conds;
    }
  }

  lemma {:induction false} StripUpToExact(c: Where, k: nat)
    requires !Leaf(c) && k <= Parts(c) && StripUpTo(c, k).Some? && !StripUpTo(c, k).value.1
    ensures StripUpTo(c, k).value.0 == c.conds[..k]
    decreases c, k
  {
    hide *;
    PartsIs(c);
    StripStep(c, k);
    if k > 0 {
      StripUpToExact(c, k - 1);
      StripExact(c.conds[k - 1]);
      ListIs(Strip(c.conds[k - 1]).0);
      assert c.conds[..k] == c.conds[..k - 1] + [c.conds[k - 1]];
    }
  }

  /** `has_subquery_under_or` */
  predicate SubqueryUnderOr(c: Where, underOr: bool) {
    match c
    case Simple(_) => false
    case Csq(_, _) => underOr
    case And(cs) => exists i :: 0 <= i < |cs| && SubqueryUnderOr(cs[i], underOr)
    case Or(cs) => exists i :: 0 <= i < |cs| && SubqueryUnderOr(cs[i], true)
  }

  /** Below an OR every subquery counts. */
  lemma {:induction false} UnderOrIs(c: Where)
    ensures SubqueryUnderOr(c, true) <==> HasSubquery(c)
  {
    if !Leaf(c) {
      forall i | 0 <= i < |c.conds| ensures SubqueryUnderOr(c.conds[i], true) <==> HasSubquery(c.conds[i]) {
        UnderOrIs(c.conds[i]);
      }
    }
  }

  ghost predicate AllHold(cs: seq<Where>, v: Where -> bool) {
    forall c :: c in cs ==> Holds(c, v)
  }

  /** Below an OR that carries no subquery nothing is stripped and nothing gathered. */
  lemma {:induction false} PureStrips(c: Where)
    requires !SubqueryUnderOr(c, true)
    ensures !Strip(c).1 && Gathered(c) == []
    decreases c, Parts(c) + 1
  {
    if !Leaf(c) {
      PureUpTo(c, Parts(c));
    } else {
      assert [c][..0] == [];
      assert Gates([c]) == Gates([]) + [];
    }
  }

  lemma {:induction false} PureUpTo(c: Where, k: nat)
    requires !Leaf(c) && k <= Parts(c) && !SubqueryUnderOr(c, true)
    ensures StripUpTo(c, k).Some? && !StripUpTo(c, k).value.1 && Gates(LeavesUpTo(c, k)) == []
    decreases c, k
  {
    hide *;
    PartsIs(c);
    LeavesStep(c, k);
    GatesNone();
    if k > 0 {
      PureUpTo(c, k - 1);
      PurePart(c, k - 1);
      PureStrips(c.conds[k - 1]);
      StripExact(c.conds[k - 1]);
      StripForward(c, k);
      GatheredIs(c.conds[k - 1]);
      GatesConcat(LeavesUpTo(c, k - 1), Leaves(c.conds[k - 1]));
    } else {
      StripStep(c, 0);
    }
  }

  lemma GatesNone()
    ensures Gates([]) == []
  {
  }

  lemma PurePart(c: Where, i: nat)
    requires !Leaf(c) && i < |c.conds| && !SubqueryUnderOr(c, true)
    ensures !SubqueryUnderOr(c.conds[i], true)
  {
  }

  lemma StripForward(c: Where, k: nat)
    requires !Leaf(c) && 0 < k <= Parts(c) && StripUpTo(c, k - 1).Some? && Strip(c.conds[k - 1]).0.Some?
    ensures StripUpTo(c, k).Some? && StripUpTo(c, k).value.1 == (StripUpTo(c, k - 1).value.1 || Strip(c.conds[k - 1]).1)
  {
  }

  /** Without a subquery under an OR, the stripped filter together with all gathered subquery
      gates is the original condition. */
  lemma {:induction false} StripPlusGates(c: Where, v: Where -> bool)
    requires !SubqueryUnderOr(c, false)
    ensures Holds(c, v) <==> HoldsOpt(Strip(c).0, v) && AllHold(Gathered(c), v)
    decreases c, Parts(c) + 1
  {
    match c {
      case Simple(_) => assert [c][..0] == []; assert Gates([c]) == Gates([]) + [];
      case Csq(_, _) => assert [c][..0] == []; assert Gates([c]) == Gates([]) + [c];
      case Or(_) =>
        assert !SubqueryUnderOr(c, true);
        PureStrips(c);
        StripExact(c);
      case And(_) =>
        AndStrips(c, Parts(c), v);
        assert c.conds[..Parts(c)] == c.conds;
        HoldsJoined(c, v);
    }
  }

  lemma {:induction false} AndStrips(c: Where, k: nat, v: Where -> bool)
    requires c.And? && k <= Parts(c) && !SubqueryUnderOr(c, false)
    ensures Joined(true, c.conds[..k], v) <==>
      Joined(true, StripUpTo(c, k).value.0, v) && AllHold(Gates(LeavesUpTo(c, k)), v)
    decreases c, k
  {
    if k > 0 {
      var d := c.conds[k - 1];
      AndStrips(c, k - 1, v);
      StripPlusGates(d, v);
      hide *;
      PartsIs(c);
      StripSome(c, k);
      StripStep(c, k);
      LeavesStep(c, k);
      assert c.conds[..k] == c.conds[..k - 1] + [d];
      JoinedConcat(true, c.conds[..k - 1], [d], v);
      JoinedOne(true, d, v);
      JoinedConcat(true, StripUpTo(c, k - 1).value.0, ListOf(Strip(d).0), v);
      ListIs(Strip(d).0);
      OptIs(Strip(d).0, v);
      if Strip(d).0.Some? { JoinedOne(true, Strip(d).0.value, v); } else { JoinedNone(true, v); }
      GatesConcat(LeavesUpTo(c, k - 1), Leaves(d));
      GatheredIs(d);
      AllConcat(Gates(LeavesUpTo(c, k - 1)), Gathered(d), v);
    }
  }

  lemma StripSome(c: Where, k: nat)
    requires c.And? && k <= Parts(c)
    ensures !Leaf(c) && StripUpTo(c, k).Some? && (k > 0 ==> StripUpTo(c, k - 1).Some?)
  {
  }

  lemma AllConcat(a: seq<Where>, b: seq<Where>, v: Where -> bool)
    ensures AllHold(a + b, v) <==> AllHold(a, v) && AllHold(b, v)
  {
    if AllHold(a + b, v) {
      forall c | c in a ensures Holds(c, v) { assert c in a + b; }
      forall c | c in b ensures Holds(c, v) { assert c in a + b; }
    }
  }
}
