/** AND/OR filter regions: how rust/src/builder.rs wires a condition into a graph of filter
    links, and how rust/src/graph.rs evaluates rows and pushes changes through them. */
module FilterChain {
  import opened Values
  import opened Order
  import CH = Changes
  import CU = Cursor
  import MS = MemorySource
  import J = Join
  import R = Receiver

  type Pred = Row -> bool

  /** A condition tree over compiled leaf predicates. */
  datatype Cond = Simple(pred: Pred) | And(conds: seq<Cond>) | Or(conds: seq<Cond>)

  /** What the condition means. */
  predicate Truth(c: Cond, row: Row) {
    match c
    case Simple(p) => p(row)
    case And(cs) => forall i :: 0 <= i < |cs| ==> Truth(cs[i], row)
    case Or(cs) => exists i :: 0 <= i < |cs| && Truth(cs[i], row)
  }

  type Node = R.WireNode

  datatype Change =
    | Add(node: Node)
    | Remove(node: Node)
    | Edit(node: Node, old_: Node)
    | Child(node: Node, rel: nat, child: Change)

  // ---- the graph ----

  datatype Link =
    | Filter(pred: Pred, output: Option<nat>)
    | FanOut(outputs: seq<nat>, fanIn: Option<nat>)
    | FanIn(output: Option<nat>)
    | FilterStart(head: Option<nat>)
    | FilterEnd

  function Always(b: bool): Pred {
    (_: Row) => b
  }

  // ---- where the builder puts things ----

  /** Links a condition takes; `SizeUpTo` counts its first `k` parts. */
  function Size(c: Cond): (n: nat)
    ensures n > 0
    decreases c, Parts(c) + 1
  {
    if Parts(c) == 0 then 1 else (if c.Or? then 2 else 0) + SizeUpTo(c, Parts(c))
  }

  function Parts(c: Cond): nat {
    if c.Simple? then 0 else |c.conds|
  }

  function SizeUpTo(c: Cond, k: nat): (n: nat)
    requires k <= Parts(c)
    ensures k > 0 ==> n > 0
    decreases c, k
  {
    if k == 0 then 0 else SizeUpTo(c, k - 1) + Size(c.conds[k - 1])
  }

  function StartOf(c: Cond, lo: nat, k: nat): nat
    requires k <= Parts(c)
  {
    lo + (if c.Or? then 2 else 0) + SizeUpTo(c, k)
  }

  function Head(c: Cond, lo: nat): nat {
    if c.And? && Parts(c) > 0 then Head(c.conds[0], lo) else lo
  }

  function Tail(c: Cond, lo: nat): nat {
    if Parts(c) == 0 then lo
    else if c.Or? then lo + 1
    else Tail(c.conds[Parts(c) - 1], StartOf(c, lo, Parts(c) - 1))
  }

  function Heads(c: Cond, lo: nat, k: nat): (hs: seq<nat>)
    requires k <= Parts(c)
    ensures |hs| == k
    ensures forall i :: 0 <= i < k ==> hs[i] == Head(c.conds[i], StartOf(c, lo, i))
  {
    if k == 0 then [] else Heads(c, lo, k - 1) + [Head(c.conds[k - 1], StartOf(c, lo, k - 1))]
  }

  /** Where part `k` of a condition leads: a conjunction chains to the next part, a disjunction's
      branches all lead to its fan-in. */
  function After(c: Cond, lo: nat, k: nat, out: Option<nat>): Option<nat>
    requires k < Parts(c)
  {
    if c.Or? then Some(lo + 1)
    else if k + 1 < Parts(c) then Some(Head(c.conds[k + 1], StartOf(c, lo, k + 1)))
    else out
  }

  /** The links from `lo` on are exactly the condition's, leading to `out`. */
  ghost predicate Laid(nodes: seq<Link>, c: Cond, lo: nat, out: Option<nat>)
    decreases c, Parts(c) + 1
  {
    && lo + Size(c) <= |nodes|
    && (if Parts(c) == 0 then nodes[lo] == Filter(if c.Simple? then c.pred else Always(c.And?), out)
        else
          && (c.Or? ==> nodes[lo] == FanOut(Heads(c, lo, Parts(c)), Some(lo + 1)) && nodes[lo + 1] == FanIn(out))
          && LaidUpTo(nodes, c, lo, out, Parts(c)))
  }

  ghost predicate LaidUpTo(nodes: seq<Link>, c: Cond, lo: nat, out: Option<nat>, k: nat)
    requires k <= Parts(c)
    decreases c, k
  {
    k == 0
    || (LaidUpTo(nodes, c, lo, out, k - 1)
        && Laid(nodes, c.conds[k - 1], StartOf(c, lo, k - 1), After(c, lo, k - 1, out)))
  }

  lemma {:induction false} SizeMonotone(c: Cond, i: nat, k: nat)
    requires i <= k <= Parts(c)
    ensures SizeUpTo(c, i) <= SizeUpTo(c, k)
    ensures i < k ==> SizeUpTo(c, i) + Size(c.conds[i]) <= SizeUpTo(c, k)
    decreases k
  {
    if i < k { SizeMonotone(c, i, k - 1); }
  }

  /** The part's place within the whole. */
  lemma PartWithin(c: Cond, lo: nat, k: nat)
    requires k < Parts(c)
    ensures lo <= StartOf(c, lo, k) && StartOf(c, lo, k) + Size(c.conds[k]) <= lo + Size(c)
  {
    SizeMonotone(c, k, Parts(c));
  }

  lemma {:induction false} EndsWithin(c: Cond, lo: nat)
    ensures lo <= Head(c, lo) < lo + Size(c) && lo <= Tail(c, lo) < lo + Size(c)
  {
    if c.And? && Parts(c) > 0 {
      EndsWithin(c.conds[0], lo);
      PartWithin(c, lo, 0);
      var k := Parts(c) - 1;
      EndsWithin(c.conds[k], StartOf(c, lo, k));
      PartWithin(c, lo, k);
    }
  }

  lemma {:induction false} LaidAt(nodes: seq<Link>, c: Cond, lo: nat, out: Option<nat>, k: nat, i: nat)
    requires i < k <= Parts(c) && LaidUpTo(nodes, c, lo, out, k)
    ensures Laid(nodes, c.conds[i], StartOf(c, lo, i), After(c, lo, i, out))
  {
    if i < k - 1 { LaidAt(nodes, c, lo, out, k - 1, i); }
  }

  // ---- links elsewhere do not matter ----

  lemma {:induction false} LaidFrame(nodes: seq<Link>, nodes': seq<Link>, c: Cond, lo: nat, out: Option<nat>)
    requires Laid(nodes, c, lo, out) && lo + Size(c) <= |nodes'|
    requires forall i :: lo <= i < lo + Size(c) ==> nodes'[i] == nodes[i]
    ensures Laid(nodes', c, lo, out)
    decreases c, Parts(c) + 1
  {
    if Parts(c) > 0 { LaidFrameUpTo(nodes, nodes', c, lo, out, Parts(c)); }
  }

  lemma {:induction false} LaidFrameUpTo(nodes: seq<Link>, nodes': seq<Link>, c: Cond, lo: nat, out: Option<nat>,
      k: nat)
    requires k <= Parts(c) && LaidUpTo(nodes, c, lo, out, k) && StartOf(c, lo, k) <= |nodes'|
    requires StartOf(c, lo, k) <= |nodes|
    requires forall i :: StartOf(c, lo, 0) <= i < StartOf(c, lo, k) ==> nodes'[i] == nodes[i]
    ensures LaidUpTo(nodes', c, lo, out, k)
    decreases c, k
  {
    if k > 0 {
      LaidFrameUpTo(nodes, nodes', c, lo, out, k - 1);
      LaidFrame(nodes, nodes', c.conds[k - 1], StartOf(c, lo, k - 1), After(c, lo, k - 1, out));
    }
  }

  /** `set_output` on a link. */
  function Rewired(l: Link, to: nat): Link {
    match l
    case Filter(p, _) => Filter(p, Some(to))
    case FanIn(_) => FanIn(Some(to))
    case _ => l
  }

  /** Wiring a condition's tail onward. */
  lemma {:induction false} LaidOnward(nodes: seq<Link>, c: Cond, lo: nat, out: Option<nat>, to: nat)
    requires Laid(nodes, c, lo, out)
    ensures Tail(c, lo) < |nodes|
    ensures Laid(nodes[Tail(c, lo) := Rewired(nodes[Tail(c, lo)], to)], c, lo, Some(to))
    decreases c
  {
    EndsWithin(c, lo);
    var nodes' := nodes[Tail(c, lo) := Rewired(nodes[Tail(c, lo)], to)];
    if Parts(c) > 0 {
      var k := Parts(c) - 1;
      if c.And? {
        LaidOnward(nodes, c.conds[k], StartOf(c, lo, k), out, to);
        EndsWithin(c.conds[k], StartOf(c, lo, k));
        LaidFrameUpTo(nodes, nodes', c, lo, out, k);
        LaidRelabel(nodes', c, lo, out, Some(to), k);
      } else {
        LaidFrameUpTo(nodes, nodes', c, lo, out, Parts(c));
        LaidRelabelOr(nodes', c, lo, out, Some(to), Parts(c));
      }
    }
  }

  /** Only the last part of a conjunction knows where the whole leads. */
  lemma {:induction false} LaidRelabel(nodes: seq<Link>, c: Cond, lo: nat, out: Option<nat>, out': Option<nat>, k: nat)
    requires c.And? && k < Parts(c) && LaidUpTo(nodes, c, lo, out, k)
    ensures LaidUpTo(nodes, c, lo, out', k)
    decreases k
  {
    if k > 0 { LaidRelabel(nodes, c, lo, out, out', k - 1); }
  }

  lemma {:induction false} LaidRelabelOr(nodes: seq<Link>, c: Cond, lo: nat, out: Option<nat>, out': Option<nat>,
      k: nat)
    requires c.Or? && k <= Parts(c) && LaidUpTo(nodes, c, lo, out, k)
    ensures LaidUpTo(nodes, c, lo, out', k)
    decreases k
  {
    if k > 0 { LaidRelabelOr(nodes, c, lo, out, out', k - 1); }
  }

  lemma LaidMade(nodes: seq<Link>, c: Cond, lo: nat, out: Option<nat>)
    requires Parts(c) > 0 && lo + Size(c) <= |nodes| && LaidUpTo(nodes, c, lo, out, Parts(c))
    requires c.Or? ==> nodes[lo] == FanOut(Heads(c, lo, Parts(c)), Some(lo + 1)) && nodes[lo + 1] == FanIn(out)
    ensures Laid(nodes, c, lo, out)
  {
  }

  lemma LaidOne(nodes: seq<Link>, c: Cond, lo: nat)
    requires Parts(c) == 0 && lo < |nodes| && nodes[lo] == Filter(if c.Simple? then c.pred else Always(c.And?), None)
    ensures Laid(nodes, c, lo, None) && Size(c) == 1 && Head(c, lo) == Tail(c, lo) == lo
  {
  }

  lemma PartStep(c: Cond, lo: nat, k: nat)
    requires k < Parts(c)
    ensures StartOf(c, lo, k + 1) == StartOf(c, lo, k) + Size(c.conds[k])
    ensures StartOf(c, lo, 0) == lo + if c.Or? then 2 else 0
    ensures Heads(c, lo, k + 1) == Heads(c, lo, k) + [Head(c.conds[k], StartOf(c, lo, k))]
  {
  }

  lemma PartsDone(c: Cond, lo: nat)
    requires Parts(c) > 0
    ensures StartOf(c, lo, Parts(c)) == lo + Size(c)
    ensures c.And? ==>
      Head(c, lo) == Head(c.conds[0], lo) && Tail(c, lo) == Tail(c.conds[Parts(c) - 1], StartOf(c, lo, Parts(c) - 1))
    ensures c.Or? ==> Head(c, lo) == lo && Tail(c, lo) == lo + 1
  {
  }

  lemma UpToStep(nodes: seq<Link>, c: Cond, lo: nat, out: Option<nat>, k: nat)
    requires k < Parts(c) && LaidUpTo(nodes, c, lo, out, k)
    requires Laid(nodes, c.conds[k], StartOf(c, lo, k), After(c, lo, k, out))
    ensures LaidUpTo(nodes, c, lo, out, k + 1)
  {
  }

  lemma UpToNone(nodes: seq<Link>, c: Cond, lo: nat, out: Option<nat>)
    ensures LaidUpTo(nodes, c, lo, out, 0)
  {
  }

  lemma AfterIs(c: Cond, lo: nat, k: nat, out: Option<nat>)
    requires k < Parts(c)
    ensures c.Or? ==> After(c, lo, k, out) == Some(lo + 1)
    ensures c.And? && k + 1 < Parts(c) ==> After(c, lo, k, out) == Some(Head(c.conds[k + 1], StartOf(c, lo, k + 1)))
    ensures c.And? && k + 1 == Parts(c) ==> After(c, lo, k, out) == out
  {
  }

  /** Appending links, or changing one outside, keeps what is laid. */
  lemma {:induction false} UpToKept(nodes: seq<Link>, nodes': seq<Link>, c: Cond, lo: nat, out: Option<nat>, k: nat)
    requires k <= Parts(c) && LaidUpTo(nodes, c, lo, out, k) && StartOf(c, lo, k) <= |nodes| <= |nodes'|
    requires forall i :: 0 <= i < StartOf(c, lo, k) ==> nodes'[i] == nodes[i]
    ensures LaidUpTo(nodes', c, lo, out, k)
  {
    LaidFrameUpTo(nodes, nodes', c, lo, out, k);
  }

  class Graph {
    var nodes: seq<Link>

    constructor ()
      ensures nodes == []
    {
      nodes := [];
    }

    method AddLink(l: Link) returns (id: nat)
      modifies this
      ensures id == |old(nodes)| && nodes == old(nodes) + [l]
    {
      id := |nodes|;
      nodes := nodes + [l];
    }

    method SetOutput(id: nat, to: nat)
      requires id < |nodes|
      modifies this
      ensures nodes == old(nodes)[id := Rewired(old(nodes)[id], to)]
    {
      nodes := nodes[id := Rewired(nodes[id], to)];
    }

    /** `apply_filter`: the condition's links, appended and wired among themselves. */
    method ApplyFilter(c: Cond) returns (head: nat, tail: nat)
      modifies this
      ensures old(nodes) <= nodes && |nodes| == |old(nodes)| + Size(c)
      ensures head == Head(c, |old(nodes)|) && tail == Tail(c, |old(nodes)|)
      ensures Laid(nodes, c, |old(nodes)|, None)
      decreases c, 1
    {
      hide *;
      match c {
        case Simple(p) =>
          PartsIs(c);
          head := AddLink(Filter(p, None));
          LaidOne(nodes, c, head);
          tail := head;
        case And(_) => head, tail := ApplyAnd(c);
        case Or(_) => head, tail := ApplyOr(c);
      }
    }

    /** `apply_and`: in series. */
    method ApplyAnd(c: Cond) returns (head: nat, tail: nat)
      requires c.And?
      modifies this
      ensures old(nodes) <= nodes && |nodes| == |old(nodes)| + Size(c)
      ensures head == Head(c, |old(nodes)|) && tail == Tail(c, |old(nodes)|)
      ensures Laid(nodes, c, |old(nodes)|, None)
      decreases c, 0
    {
      hide *;
      PartsIs(c);
      if |c.conds| == 0 {
        head := AddLink(Filter(Always(true), None));
        LaidOne(nodes, c, head);
        tail := head;
        return;
      }
      ghost var lo := |nodes|;
      PartStep(c, lo, 0);
      UpToNone(nodes, c, lo, None);
      head, tail := ApplyFilter(c.conds[0]);
      UpToNone(nodes, c, lo, None);
      var k := 1;
      while k < |c.conds|
        invariant 1 <= k <= |c.conds| && lo == |old(nodes)| && old(nodes) <= nodes && |nodes| == StartOf(c, lo, k)
        invariant head == Head(c.conds[0], lo) && tail == Tail(c.conds[k - 1], StartOf(c, lo, k - 1))
        invariant StartOf(c, lo, k) == StartOf(c, lo, k - 1) + Size(c.conds[k - 1]) && lo <= StartOf(c, lo, k - 1)
        invariant LaidUpTo(nodes, c, lo, None, k - 1) && Laid(nodes, c.conds[k - 1], StartOf(c, lo, k - 1), None)
      {
        ghost var n0 := nodes;
        PartStep(c, lo, k);
        var h, t := ApplyFilter(c.conds[k]);
        ghost var n1 := nodes;
        UpToKept(n0, n1, c, lo, None, k - 1);
        LaidFrame(n0, n1, c.conds[k - 1], StartOf(c, lo, k - 1), None);
        EndsWithin(c.conds[k - 1], StartOf(c, lo, k - 1));
        LaidOnward(n1, c.conds[k - 1], StartOf(c, lo, k - 1), None, h);
        SetOutput(tail, h);
        UpToKept(n1, nodes, c, lo, None, k - 1);
        LaidFrame(n1, nodes, c.conds[k], StartOf(c, lo, k), None);
        AfterIs(c, lo, k - 1, None);
        UpToStep(nodes, c, lo, None, k - 1);
        tail := t;
        k := k + 1;
      }
      AfterIs(c, lo, k - 1, None);
      UpToStep(nodes, c, lo, None, k - 1);
      PartsDone(c, lo);
      LaidMade(nodes, c, lo, None);
    }

    /** `apply_or`: a fan-out with one branch per condition, all ending in one fan-in. */
    method ApplyOr(c: Cond) returns (head: nat, tail: nat)
      requires c.Or?
      modifies this
      ensures old(nodes) <= nodes && |nodes| == |old(nodes)| + Size(c)
      ensures head == Head(c, |old(nodes)|) && tail == Tail(c, |old(nodes)|)
      ensures Laid(nodes, c, |old(nodes)|, None)
      decreases c, 0
    {
      hide *;
      PartsIs(c);
      if |c.conds| == 0 {
        head := AddLink(Filter(Always(false), None));
        LaidOne(nodes, c, head);
        tail := head;
        return;
      }
      ghost var lo := |nodes|;
      head := AddLink(FanOut([], None));
      tail := AddLink(FanIn(None));
      var heads: seq<nat> := [];
      var k := 0;
      PartStep(c, lo, 0);
      UpToNone(nodes, c, lo, None);
      HeadsNone(c, lo);
      while k < |c.conds|
        invariant k <= |c.conds| && lo == |old(nodes)| && old(nodes) <= nodes && |nodes| == StartOf(c, lo, k)
        invariant lo + 2 <= |nodes|
        invariant head == lo && tail == lo + 1 && nodes[lo] == FanOut([], None) && nodes[lo + 1] == FanIn(None)
        invariant heads == Heads(c, lo, k) && LaidUpTo(nodes, c, lo, None, k)
      {
        ghost var n0 := nodes;
        PartStep(c, lo, k);
        var h, t := ApplyFilter(c.conds[k]);
        ghost var n1 := nodes;
        UpToKept(n0, n1, c, lo, None, k);
        EndsWithin(c.conds[k], StartOf(c, lo, k));
        LaidOnward(n1, c.conds[k], StartOf(c, lo, k), None, tail);
        SetOutput(t, tail);
        UpToKept(n1, nodes, c, lo, None, k);
        AfterIs(c, lo, k, None);
        UpToStep(nodes, c, lo, None, k);
        heads := heads + [h];
        k := k + 1;
      }
      ghost var n0 := nodes;
      nodes := nodes[head := FanOut(heads, Some(tail))];
      PartStep(c, lo, 0);
      LaidFrameUpTo(n0, nodes, c, lo, None, k);
      PartsDone(c, lo);
      LaidMade(nodes, c, lo, None);
    }

    /** `build_filter_branch`: the region between a filter start and a filter end. */
    method BuildFilterBranch(c: Cond) returns (start: nat, end: nat)
      modifies this
      ensures start == |old(nodes)| && end < |nodes| && nodes[end] == FilterEnd
      ensures start < |nodes| && nodes[start] == FilterStart(Some(Head(c, start + 1)))
      ensures Laid(nodes, c, start + 1, Some(end))
    {
      hide *;
      start := AddLink(FilterStart(None));
      var head, tail := ApplyFilter(c);
      ghost var n0 := nodes;
      end := AddLink(FilterEnd);
      LaidFrame(n0, nodes, c, start + 1, None);
      ghost var n1 := nodes;
      nodes := nodes[start := FilterStart(Some(head))];
      LaidFrame(n1, nodes, c, start + 1, None);
      EndsWithin(c, start + 1);
      LaidOnward(nodes, c, start + 1, None, end);
      SetOutput(tail, end);
    }
  }

  lemma PartsIs(c: Cond)
    ensures Parts(c) == if c.Simple? then 0 else |c.conds|
  {
  }

  lemma HeadsNone(c: Cond, lo: nat)
    ensures Heads(c, lo, 0) == []
  {
  }

  // ---- the graph unfolded ----

  /** A region of the graph seen from one link; it is the measure by which the walks end. */
  datatype Chain =
    | CFilter(pred: Pred, next: Chain)
    | CFanOut(branches: seq<Chain>, cont: Option<Chain>)
    | CFanIn
    | CEnd

  ghost predicate Unfolds(nodes: seq<Link>, id: nat, chain: Chain)
    decreases chain
  {
    && id < |nodes|
    && match chain
       case CFilter(p, next) =>
         nodes[id].Filter? && nodes[id].pred == p && nodes[id].output.Some?
         && Unfolds(nodes, nodes[id].output.value, next)
       case CFanOut(bs, cont) =>
         && nodes[id].FanOut? && |nodes[id].outputs| == |bs| && nodes[id].fanIn.Some?
         && (forall i :: 0 <= i < |bs| ==> Unfolds(nodes, nodes[id].outputs[i], bs[i]))
         && nodes[id].fanIn.value < |nodes| && nodes[nodes[id].fanIn.value].FanIn?
         && (cont.Some? <==> nodes[nodes[id].fanIn.value].output.Some?)
         && (cont.Some? ==> Unfolds(nodes, nodes[nodes[id].fanIn.value].output.value, cont.value))
       case CFanIn => nodes[id].FanIn?
       case CEnd => nodes[id].FilterEnd?
  }

  /** `chain_filter` */
  predicate ChainFilter(nodes: seq<Link>, link: nat, row: Row, ghost chain: Chain)
    requires Unfolds(nodes, link, chain)
    decreases chain
  {
    match nodes[link]
    case Filter(p, output) => p(row) && ChainFilter(nodes, output.value, row, chain.next)
    case FanOut(outputs, fanIn) =>
      && (exists i :: 0 <= i < |outputs| && ChainFilter(nodes, outputs[i], row, chain.branches[i]))
      && (nodes[fanIn.value].output.Some? ==>
        ChainFilter(nodes, nodes[fanIn.value].output.value, row, chain.cont.value))
    case FanIn(_) => true
    case FilterEnd => true
  }

  predicate Pass(chain: Chain, row: Row) {
    match chain
    case CFilter(p, next) => p(row) && Pass(next, row)
    case CFanOut(bs, cont) => (exists i :: 0 <= i < |bs| && Pass(bs[i], row)) && (cont.Some? ==> Pass(cont.value, row))
    case CFanIn => true
    case CEnd => true
  }

  lemma {:induction false} FilterIsPass(nodes: seq<Link>, link: nat, row: Row, chain: Chain)
    requires Unfolds(nodes, link, chain)
    ensures ChainFilter(nodes, link, row, chain) == Pass(chain, row)
    decreases chain
  {
    match chain {
      case CFilter(_, next) => FilterIsPass(nodes, nodes[link].output.value, row, next);
      case CFanOut(bs, cont) =>
        forall i | 0 <= i < |bs| ensures ChainFilter(nodes, nodes[link].outputs[i], row, bs[i]) == Pass(bs[i], row) {
          FilterIsPass(nodes, nodes[link].outputs[i], row, bs[i]);
        }
        if cont.Some? { FilterIsPass(nodes, nodes[nodes[link].fanIn.value].output.value, row, cont.value); }
      case CFanIn =>
      case CEnd =>
    }
  }

  /** The chain a condition compiles to, continued by `next`. */
  function ChainOf(c: Cond, next: Chain): Chain
    decreases c, Parts(c) + 1
  {
    if Parts(c) == 0 then CFilter(if c.Simple? then c.pred else Always(c.And?), next)
    else if c.And? then Series(c, 0, next)
    else CFanOut(Branches(c, Parts(c)), Some(next))
  }

  function Series(c: Cond, k: nat, next: Chain): Chain
    requires k <= Parts(c)
    decreases c, Parts(c) - k
  {
    if k == Parts(c) then next else ChainOf(c.conds[k], Series(c, k + 1, next))
  }

  function Branches(c: Cond, k: nat): (bs: seq<Chain>)
    requires k <= Parts(c)
    ensures |bs| == k
    decreases c, k
  {
    if k == 0 then [] else Branches(c, k - 1) + [ChainOf(c.conds[k - 1], CFanIn)]
  }

  lemma {:induction false} BranchAt(c: Cond, k: nat, i: nat)
    requires i < k <= Parts(c)
    ensures Branches(c, k)[i] == ChainOf(c.conds[i], CFanIn)
  {
    if i < k - 1 { BranchAt(c, k - 1, i); }
  }

  /** What the builder lays down unfolds to the condition's chain. */
  lemma {:induction false} LaidUnfolds(nodes: seq<Link>, c: Cond, lo: nat, out: nat, next: Chain)
    requires Laid(nodes, c, lo, Some(out)) && Unfolds(nodes, out, next)
    ensures Unfolds(nodes, Head(c, lo), ChainOf(c, next))
    decreases c, Parts(c) + 1
  {
    hide *;
    LaidOpens(nodes, c, lo, out, next);
    if Parts(c) > 0 {
      PartStep(c, lo, 0);
      PartsDone(c, lo);
      if c.And? {
        SeriesUnfolds(nodes, c, lo, out, next, 0);
      } else {
        var bs := Branches(c, Parts(c));
        forall i | 0 <= i < |bs| ensures Unfolds(nodes, nodes[lo].outputs[i], bs[i]) {
          LaidAt(nodes, c, lo, Some(out), Parts(c), i);
          AfterIs(c, lo, i, Some(out));
          BranchAt(c, Parts(c), i);
          FanInUnfolds(nodes, lo + 1);
          LaidUnfolds(nodes, c.conds[i], StartOf(c, lo, i), lo + 1, CFanIn);
        }
        FanUnfolds(nodes, lo, bs, next);
      }
    }
  }

  lemma LaidOpens(nodes: seq<Link>, c: Cond, lo: nat, out: nat, next: Chain)
    requires Laid(nodes, c, lo, Some(out)) && Unfolds(nodes, out, next)
    ensures out < |nodes|
    ensures Parts(c) > 0 ==> !c.Simple? && |c.conds| == Parts(c) && LaidUpTo(nodes, c, lo, Some(out), Parts(c))
    ensures Parts(c) == 0 ==> Unfolds(nodes, Head(c, lo), ChainOf(c, next))
    ensures Parts(c) > 0 && c.And? ==> ChainOf(c, next) == Series(c, 0, next)
    ensures Parts(c) > 0 && c.Or? ==>
      && ChainOf(c, next) == CFanOut(Branches(c, Parts(c)), Some(next)) && lo + 1 < |nodes|
      && nodes[lo] == FanOut(Heads(c, lo, Parts(c)), Some(lo + 1)) && nodes[lo + 1] == FanIn(Some(out))
  {
  }

  lemma FanInUnfolds(nodes: seq<Link>, id: nat)
    requires id < |nodes| && nodes[id].FanIn?
    ensures Unfolds(nodes, id, CFanIn)
  {
  }

  lemma FanUnfolds(nodes: seq<Link>, id: nat, bs: seq<Chain>, next: Chain)
    requires id + 1 < |nodes| && nodes[id].FanOut? && nodes[id].fanIn == Some(id + 1) && |nodes[id].outputs| == |bs|
    requires nodes[id + 1].FanIn? && nodes[id + 1].output.Some? && Unfolds(nodes, nodes[id + 1].output.value, next)
    requires forall i :: 0 <= i < |bs| ==> Unfolds(nodes, nodes[id].outputs[i], bs[i])
    ensures Unfolds(nodes, id, CFanOut(bs, Some(next)))
  {
  }

  lemma {:induction false} SeriesUnfolds(nodes: seq<Link>, c: Cond, lo: nat, out: nat, next: Chain, k: nat)
    requires c.And? && k < Parts(c) && LaidUpTo(nodes, c, lo, Some(out), Parts(c)) && Unfolds(nodes, out, next)
    ensures Unfolds(nodes, Head(c.conds[k], StartOf(c, lo, k)), Series(c, k, next))
    decreases c, Parts(c) - k
  {
    LaidAt(nodes, c, lo, Some(out), Parts(c), k);
    AfterIs(c, lo, k, Some(out));
    if k + 1 < Parts(c) {
      SeriesUnfolds(nodes, c, lo, out, next, k + 1);
      LaidUnfolds(nodes, c.conds[k], StartOf(c, lo, k), Head(c.conds[k + 1], StartOf(c, lo, k + 1)),
        Series(c, k + 1, next));
    } else {
      LaidUnfolds(nodes, c.conds[k], StartOf(c, lo, k), out, next);
      assert Series(c, k + 1, next) == next;
    }
  }

  /** A condition's chain passes exactly the rows on which the condition holds and the rest passes. */
  lemma {:induction false} ChainMeans(c: Cond, next: Chain, row: Row)
    ensures Pass(ChainOf(c, next), row) <==> Truth(c, row) && Pass(next, row)
    decreases c, Parts(c) + 1
  {
    if Parts(c) > 0 {
      if c.And? {
        SeriesMeans(c, 0, next, row);
      } else {
        forall i | 0 <= i < Parts(c) ensures Pass(Branches(c, Parts(c))[i], row) <==> Truth(c.conds[i], row) {
          BranchAt(c, Parts(c), i);
          ChainMeans(c.conds[i], CFanIn, row);
        }
      }
    }
  }

  lemma {:induction false} SeriesMeans(c: Cond, k: nat, next: Chain, row: Row)
    requires c.And? && k <= Parts(c)
    ensures Pass(Series(c, k, next), row) <==>
      (forall i :: k <= i < Parts(c) ==> Truth(c.conds[i], row)) && Pass(next, row)
    decreases c, Parts(c) - k
  {
    if k < Parts(c) {
      ChainMeans(c.conds[k], Series(c, k + 1, next), row);
      SeriesMeans(c, k + 1, next, row);
    }
  }

  /** Fetch time: the wired region accepts a row exactly when the condition holds on it. */
  lemma {:induction false} RegionFilters(nodes: seq<Link>, c: Cond, lo: nat, end: nat, row: Row)
    requires Laid(nodes, c, lo, Some(end)) && end < |nodes| && nodes[end].FilterEnd?
    ensures Unfolds(nodes, Head(c, lo), ChainOf(c, CEnd))
    ensures ChainFilter(nodes, Head(c, lo), row, ChainOf(c, CEnd)) == Truth(c, row)
  {
    LaidUnfolds(nodes, c, lo, end, CEnd);
    FilterIsPass(nodes, Head(c, lo), row, ChainOf(c, CEnd));
    ChainMeans(c, CEnd, row);
  }

  // ---- pushing changes ----

  /** What a chain hands back to its caller, and what it pushed past its filter end. */
  datatype Pushed = Pushed(leftover: seq<Change>, delivered: seq<Change>)

  datatype ChangeType = TAdd | TRemove | TEdit | TChild

  function TypeOf(c: Change): ChangeType {
    match c case Add(_) => TAdd case Remove(_) => TRemove case Edit(_, _) => TEdit case Child(_, _, _) => TChild
  }

  /** The firsts of each kind among accumulated branch results. */
  datatype Firsts = Firsts(add: Option<Node>, remove: Option<Node>, edit: Option<Change>, child: Option<Change>)

  function FirstOf<T>(a: Option<T>, b: T): Option<T> {
    if a.Some? then a else Some(b)
  }

  function Note(f: Firsts, c: Change): Firsts {
    match c
    case Add(n) => f.(add := FirstOf(f.add, n))
    case Remove(n) => f.(remove := FirstOf(f.remove, n))
    case Edit(_, _) => f.(edit := FirstOf(f.edit, c))
    case Child(_, _, _) => f.(child := FirstOf(f.child, c))
  }

  const NO_FIRSTS := Firsts(None, None, None, None)

  function Noted(acc: seq<Change>): Firsts {
    if acc == [] then NO_FIRSTS else Note(Noted(acc[..|acc| - 1]), acc[|acc| - 1])
  }

  /** The assertions `collapse_accumulated` makes for each kind of change entering the fan. */
  predicate Fits(f: Firsts, t: ChangeType) {
    match t
    case TAdd => f.remove.None? && f.edit.None? && f.child.None?
    case TRemove => f.add.None? && f.edit.None? && f.child.None?
    case TEdit => f.child.None?
    case TChild => f.edit.None? && (f.child.None? ==> !(f.add.Some? && f.remove.Some?))
  }

  function Collapsed(f: Firsts, t: ChangeType): seq<Change> {
    match t
    case TAdd => if f.add.Some? then [Add(f.add.value)] else []
    case TRemove => if f.remove.Some? then [Remove(f.remove.value)] else []
    case TEdit =>
      if f.edit.Some? then [f.edit.value]
      else if f.add.Some? && f.remove.Some? then [Edit(f.add.value, f.remove.value)]
      else if f.add.Some? then [Add(f.add.value)]
      else if f.remove.Some? then [Remove(f.remove.value)]
      else []
    case TChild =>
      if f.child.Some? then [f.child.value]
      else if f.add.Some? then [Add(f.add.value)]
      else if f.remove.Some? then [Remove(f.remove.value)]
      else []
  }

  /** `collapse_accumulated`: one pass for the firsts, then one change at most. */
  method CollapseAccumulated(acc: seq<Change>, t: ChangeType) returns (out: seq<Change>)
    ensures out == Collapsed(Noted(acc), t) && |out| <= 1
  {
    var f := NO_FIRSTS;
    var i := 0;
    while i < |acc|
      invariant i <= |acc| && f == Noted(acc[..i])
    {
      assert acc[..i + 1][..i] == acc[..i];
      f := Note(f, acc[i]);
      i := i + 1;
    }
    assert acc[..i] == acc;
    out := Collapsed(f, t);
  }

  /** `filter_chain_push` up to the next link: drop, pass, or split an edit. */
  function Gate(p: Pred, c: Change): seq<Change> {
    match c
    case Add(n) => if p(n.row) then [c] else []
    case Remove(n) => if p(n.row) then [c] else []
    case Edit(node, old_) =>
      if p(old_.row) && p(node.row) then [c]
      else if p(old_.row) then [Remove(old_)]
      else if p(node.row) then [Add(node)]
      else []
    case Child(node, _, _) => if p(node.row) then [c] else []
  }

  /** `chain_push` */
  function ChainPush(nodes: seq<Link>, link: nat, c: Change, ghost chain: Chain): Pushed
    requires Unfolds(nodes, link, chain)
    decreases chain, 1, 0
  {
    match nodes[link]
    case Filter(p, output) =>
      var gated := Gate(p, c);
      if |gated| == 0 then Pushed([], []) else ChainPush(nodes, output.value, gated[0], chain.next)
    case FanOut(outputs, fanIn) =>
      var acc := Broadcast(nodes, link, |outputs|, c, chain);
      var out := Collapsed(Noted(acc.leftover), TypeOf(c));
      var rest :=
        if |out| == 0 then Pushed([], [])
        else if nodes[fanIn.value].output.Some? then
          ChainPush(nodes, nodes[fanIn.value].output.value, out[0], chain.cont.value)
        else Pushed(out, []);
      Pushed(rest.leftover, acc.delivered + rest.delivered)
    case FanIn(_) => Pushed([c], [])
    case FilterEnd => Pushed([], [c])
  }

  /** The first `k` branches of a fan-out, in order. */
  function Broadcast(nodes: seq<Link>, link: nat, k: nat, c: Change, ghost chain: Chain): Pushed
    requires chain.CFanOut? && Unfolds(nodes, link, chain) && k <= |nodes[link].outputs|
    decreases chain, 0, k
  {
    if k == 0 then Pushed([], [])
    else
      var before := Broadcast(nodes, link, k - 1, c, chain);
      var one := ChainPush(nodes, nodes[link].outputs[k - 1], c, chain.branches[k - 1]);
      Pushed(before.leftover + one.leftover, before.delivered + one.delivered)
  }

  /** The change a filter `f` must let out: what a view of the accepted rows has to hear. */
  function Implied(f: Pred, c: Change): seq<Change> {
    match c
    case Add(n) => if f(n.row) then [Add(n)] else []
    case Remove(n) => if f(n.row) then [Remove(n)] else []
    case Edit(node, old_) =>
      (match (f(old_.row), f(node.row))
       case (true, true) => [Edit(node, old_)]
       case (true, false) => [Remove(old_)]
       case (false, true) => [Add(node)]
       case (false, false) => [])
    case Child(node, rel, child) => if f(node.row) then [Child(node, rel, child)] else []
  }

  function PassP(chain: Chain): Pred {
    (row: Row) => Pass(chain, row)
  }

  /** Chains that hand their result up (ending in a fan-in), or push it out (in a filter end). */
  predicate Ends(chain: Chain, up: bool) {
    match chain
    case CFilter(_, next) => Ends(next, up)
    case CFanOut(bs, cont) =>
      (forall i :: 0 <= i < |bs| ==> Ends(bs[i], true))
      && (if cont.Some? then Ends(cont.value, up) else up)
    case CFanIn => up
    case CEnd => !up
  }

  function Outlet(up: bool, cs: seq<Change>): Pushed {
    if up then Pushed(cs, []) else Pushed([], cs)
  }

  /** Some branch passes. */
  predicate AnyPass(bs: seq<Chain>, k: nat, row: Row)
    requires k <= |bs|
  {
    exists i :: 0 <= i < k && Pass(bs[i], row)
  }

  /** What the first `k` branches must have produced. */
  ghost predicate FirstsAre(f: Firsts, bs: seq<Chain>, k: nat, c: Change)
    requires k <= |bs|
  {
    match c
    case Add(n) => f == NO_FIRSTS.(add := if AnyPass(bs, k, n.row) then Some(n) else None)
    case Remove(n) => f == NO_FIRSTS.(remove := if AnyPass(bs, k, n.row) then Some(n) else None)
    case Child(n, _, _) => f == NO_FIRSTS.(child := if AnyPass(bs, k, n.row) then Some(c) else None)
    case Edit(node, old_) =>
      && f.child.None?
      && (f.add.Some? ==> f.add.value == node) && (f.remove.Some? ==> f.remove.value == old_)
      && (f.edit.Some? ==> f.edit.value == c)
      && (AnyPass(bs, k, node.row) <==> f.add.Some? || f.edit.Some?)
      && (AnyPass(bs, k, old_.row) <==> f.remove.Some? || f.edit.Some?)
  }

  lemma AnyStep(bs: seq<Chain>, k: nat, row: Row)
    requires k < |bs|
    ensures AnyPass(bs, k + 1, row) <==> AnyPass(bs, k, row) || Pass(bs[k], row)
    ensures !AnyPass(bs, 0, row)
  {
  }

  lemma {:induction false} FirstsStep(acc: seq<Change>, bs: seq<Chain>, k: nat, c: Change)
    requires k < |bs| && FirstsAre(Noted(acc), bs, k, c)
    ensures FirstsAre(Noted(acc + Implied(PassP(bs[k]), c)), bs, k + 1, c)
  {
    hide Pass;
    hide AnyPass;
    var more := Implied(PassP(bs[k]), c);
    AnyStep(bs, k, c.node.row);
    if c.Edit? { AnyStep(bs, k, c.old_.row); }
    assert PassP(bs[k])(c.node.row) == Pass(bs[k], c.node.row);
    if |more| == 0 { assert acc + more == acc; } else { assert (acc + more)[..|acc|] == acc; }
  }

  /** Collapsing the branches of an OR gives the change the OR implies; the assertions hold. */
  lemma {:induction false} CollapseIs(f: Firsts, bs: seq<Chain>, c: Change)
    requires FirstsAre(f, bs, |bs|, c)
    ensures Fits(f, TypeOf(c))
    ensures Collapsed(f, TypeOf(c)) == Implied((row: Row) => AnyPass(bs, |bs|, row), c)
  {
    hide AnyPass;
  }

  /** `Gate` is what a single predicate implies, and gating in series implies the conjunction. */
  lemma {:induction false} GateThen(p: Pred, q: Pred, c: Change)
    ensures Implied((row: Row) => p(row) && q(row), c) == if |Gate(p, c)| == 0 then [] else Implied(q, Gate(p, c)[0])
  {
  }

  lemma ImpliedSame(f: Pred, g: Pred, c: Change)
    requires f(c.node.row) == g(c.node.row) && (c.Edit? ==> f(c.old_.row) == g(c.old_.row))
    ensures Implied(f, c) == Implied(g, c)
  {
  }

  lemma {:induction false} ImpliedThen(p: Pred, q: Pred, c: Change)
    ensures Implied((row: Row) => p(row) && q(row), c) == if |Implied(p, c)| == 0 then []
      else Implied(q, Implied(p, c)[0])
  {
  }

  /** Pushing through any chain lets out exactly the implied change. */
  lemma {:induction false} PushIs(nodes: seq<Link>, link: nat, c: Change, chain: Chain, up: bool)
    requires Unfolds(nodes, link, chain) && Ends(chain, up)
    ensures ChainPush(nodes, link, c, chain) == Outlet(up, Implied(PassP(chain), c))
    decreases chain, 1, 0
  {
    match chain {
      case CFilter(p, next) =>
        var gated := Gate(p, c);
        GateThen(p, PassP(next), c);
        ImpliedSame(PassP(chain), (row: Row) => p(row) && PassP(next)(row), c);
        if |gated| > 0 { PushIs(nodes, nodes[link].output.value, gated[0], next, up); }
      case CFanOut(bs, cont) => FanPushIs(nodes, link, c, chain, up);
      case CFanIn =>
      case CEnd =>
    }
  }

  lemma {:induction false} FanPushIs(nodes: seq<Link>, link: nat, c: Change, chain: Chain, up: bool)
    requires chain.CFanOut? && Unfolds(nodes, link, chain) && Ends(chain, up)
    ensures ChainPush(nodes, link, c, chain) == Outlet(up, Implied(PassP(chain), c))
    decreases chain, 0, |chain.branches| + 1
  {
    hide *;
    var bs := chain.branches;
    FanOpens(nodes, link, chain, up);
    BroadcastIs(nodes, link, |bs|, c, chain);
    var acc := Broadcast(nodes, link, |bs|, c, chain);
    FanPushOpens(nodes, link, c, chain);
    CollapseIs(Noted(acc.leftover), bs, c);
    CollapsedSmall(Noted(acc.leftover), TypeOf(c));
    var any: Pred := (row: Row) => AnyPass(bs, |bs|, row);
    var out := Collapsed(Noted(acc.leftover), TypeOf(c));
    OutletOf(up, []);
    FanPass(chain, c.node.row);
    if c.Edit? { FanPass(chain, c.old_.row); }
    if chain.cont.Some? {
      var q := PassP(chain.cont.value);
      ImpliedThen(any, q, c);
      ImpliedSame(PassP(chain), (row: Row) => any(row) && q(row), c);
      if |out| > 0 {
        PushIs(nodes, nodes[nodes[link].fanIn.value].output.value, out[0], chain.cont.value, up);
        OutletOf(up, Implied(q, out[0]));
      }
    } else {
      ImpliedSame(PassP(chain), any, c);
      OutletOf(up, out);
    }
  }

  lemma FanPass(chain: Chain, row: Row)
    requires chain.CFanOut?
    ensures PassP(chain)(row) <==>
      AnyPass(chain.branches, |chain.branches|, row) && (chain.cont.Some? ==> PassP(chain.cont.value)(row))
  {
  }

  lemma OutletOf(up: bool, cs: seq<Change>)
    ensures Outlet(up, cs) == if up then Pushed(cs, []) else Pushed([], cs)
  {
  }

  lemma FanOpens(nodes: seq<Link>, link: nat, chain: Chain, up: bool)
    requires chain.CFanOut? && Unfolds(nodes, link, chain) && Ends(chain, up)
    ensures link < |nodes| && nodes[link].FanOut? && |nodes[link].outputs| == |chain.branches|
    ensures nodes[link].fanIn.Some? && nodes[link].fanIn.value < |nodes| && nodes[nodes[link].fanIn.value].FanIn?
    ensures forall i :: 0 <= i < |chain.branches| ==> Ends(chain.branches[i], true)
    ensures chain.cont.None? ==> up
    ensures chain.cont.Some? ==> nodes[nodes[link].fanIn.value].output.Some? && Ends(chain.cont.value, up)
    ensures chain.cont.Some? ==> Unfolds(nodes, nodes[nodes[link].fanIn.value].output.value, chain.cont.value)
  {
  }

  lemma BranchOpens(nodes: seq<Link>, link: nat, chain: Chain, k: nat)
    requires chain.CFanOut? && Unfolds(nodes, link, chain) && k < |chain.branches|
    ensures link < |nodes| && nodes[link].FanOut? && |nodes[link].outputs| == |chain.branches|
    ensures Unfolds(nodes, nodes[link].outputs[k], chain.branches[k])
  {
  }

  lemma {:induction false} FanPushOpens(nodes: seq<Link>, link: nat, c: Change, chain: Chain)
    requires chain.CFanOut? && Unfolds(nodes, link, chain)
    ensures link < |nodes| && nodes[link].FanOut? && |nodes[link].outputs| == |chain.branches|
    ensures nodes[link].fanIn.Some? && nodes[link].fanIn.value < |nodes| && nodes[nodes[link].fanIn.value].FanIn?
    ensures chain.cont.Some? ==>
      nodes[nodes[link].fanIn.value].output.Some?
      && Unfolds(nodes, nodes[nodes[link].fanIn.value].output.value, chain.cont.value)
    ensures var acc := Broadcast(nodes, link, |chain.branches|, c, chain);
      var out := Collapsed(Noted(acc.leftover), TypeOf(c));
      var rest :=
        if |out| == 0 then Pushed([], [])
        else if chain.cont.Some? then
          ChainPush(nodes, nodes[nodes[link].fanIn.value].output.value, out[0], chain.cont.value)
        else Pushed(out, []);
      ChainPush(nodes, link, c, chain) == Pushed(rest.leftover, acc.delivered + rest.delivered)
  {
    hide Broadcast;
    hide Collapsed;
    hide Noted;
  }

  /** No assertion of any collapse fires during the push: at every fan the walk meets, what the
      branches hand up fits the change that entered it. */
  ghost predicate Calm(nodes: seq<Link>, link: nat, c: Change, chain: Chain)
    requires Unfolds(nodes, link, chain)
    decreases chain
  {
    match chain
    case CFilter(p, next) =>
      |Gate(p, c)| > 0 ==> Calm(nodes, nodes[link].output.value, Gate(p, c)[0], next)
    case CFanOut(bs, cont) =>
      var acc := Broadcast(nodes, link, |bs|, c, chain).leftover;
      var out := Collapsed(Noted(acc), TypeOf(c));
      && Fits(Noted(acc), TypeOf(c))
      && (forall i :: 0 <= i < |bs| ==> Calm(nodes, nodes[link].outputs[i], c, bs[i]))
      && (cont.Some? && |out| > 0 ==> Calm(nodes, nodes[nodes[link].fanIn.value].output.value, out[0], cont.value))
    case CFanIn => true
    case CEnd => true
  }

  lemma {:induction false} PushCalm(nodes: seq<Link>, link: nat, c: Change, chain: Chain, up: bool)
    requires Unfolds(nodes, link, chain) && Ends(chain, up)
    ensures Calm(nodes, link, c, chain)
    decreases chain
  {
    match chain {
      case CFilter(p, next) =>
        if |Gate(p, c)| > 0 { PushCalm(nodes, nodes[link].output.value, Gate(p, c)[0], next, up); }
      case CFanOut(bs, cont) =>
        FanOpens(nodes, link, chain, up);
        forall i | 0 <= i < |bs| ensures Calm(nodes, nodes[link].outputs[i], c, bs[i]) {
          BranchOpens(nodes, link, chain, i);
          PushCalm(nodes, nodes[link].outputs[i], c, bs[i], true);
        }
        FanFits(nodes, link, c, chain);
        var out := Collapsed(Noted(Broadcast(nodes, link, |bs|, c, chain).leftover), TypeOf(c));
        if cont.Some? && |out| > 0 {
          PushCalm(nodes, nodes[nodes[link].fanIn.value].output.value, out[0], cont.value, up);
        }
      case CFanIn =>
      case CEnd =>
    }
  }

  lemma {:induction false} FanFits(nodes: seq<Link>, link: nat, c: Change, chain: Chain)
    requires chain.CFanOut? && Unfolds(nodes, link, chain)
    requires forall i :: 0 <= i < |chain.branches| ==> Ends(chain.branches[i], true)
    ensures link < |nodes| && nodes[link].FanOut? && |nodes[link].outputs| == |chain.branches|
    ensures Fits(Noted(Broadcast(nodes, link, |chain.branches|, c, chain).leftover), TypeOf(c))
  {
    hide *;
    BroadcastOpens(nodes, link, |chain.branches|, c, chain);
    BroadcastIs(nodes, link, |chain.branches|, c, chain);
    CollapseIs(Noted(Broadcast(nodes, link, |chain.branches|, c, chain).leftover), chain.branches, c);
  }

  lemma CollapsedSmall(f: Firsts, t: ChangeType)
    ensures |Collapsed(f, t)| <= 1
  {
  }

  lemma {:induction false} BroadcastIs(nodes: seq<Link>, link: nat, k: nat, c: Change, chain: Chain)
    requires chain.CFanOut? && Unfolds(nodes, link, chain) && k <= |chain.branches|
    requires forall i :: 0 <= i < |chain.branches| ==> Ends(chain.branches[i], true)
    ensures var acc := Broadcast(nodes, link, k, c, chain);
      acc.delivered == [] && FirstsAre(Noted(acc.leftover), chain.branches, k, c)
    decreases chain, 0, k
  {
    hide *;
    BroadcastOpens(nodes, link, k, c, chain);
    if k > 0 {
      BranchOpens(nodes, link, chain, k - 1);
      BroadcastIs(nodes, link, k - 1, c, chain);
      PushIs(nodes, nodes[link].outputs[k - 1], c, chain.branches[k - 1], true);
      OutletOf(true, Implied(PassP(chain.branches[k - 1]), c));
      FirstsStep(Broadcast(nodes, link, k - 1, c, chain).leftover, chain.branches, k - 1, c);
    }
  }

  lemma {:induction false} BroadcastOpens(nodes: seq<Link>, link: nat, k: nat, c: Change, chain: Chain)
    requires chain.CFanOut? && Unfolds(nodes, link, chain) && k <= |chain.branches|
    ensures link < |nodes| && nodes[link].FanOut? && |nodes[link].outputs| == |chain.branches|
    ensures k == 0 ==>
      Broadcast(nodes, link, k, c, chain) == Pushed([], []) && FirstsAre(Noted([]), chain.branches, 0, c)
    ensures k > 0 ==>
      && Unfolds(nodes, nodes[link].outputs[k - 1], chain.branches[k - 1])
      && var before := Broadcast(nodes, link, k - 1, c, chain);
         var one := ChainPush(nodes, nodes[link].outputs[k - 1], c, chain.branches[k - 1]);
         Broadcast(nodes, link, k, c, chain) == Pushed(before.leftover + one.leftover, before.delivered + one.delivered)
  {
    hide ChainPush;
  }

  lemma {:induction false} ChainEnds(c: Cond, next: Chain, up: bool)
    requires Ends(next, up)
    ensures Ends(ChainOf(c, next), up)
    decreases c, Parts(c) + 1
  {
    if Parts(c) > 0 {
      if c.And? {
        SeriesEnds(c, 0, next, up);
      } else {
        forall i | 0 <= i < Parts(c) ensures Ends(Branches(c, Parts(c))[i], true) {
          BranchAt(c, Parts(c), i);
          ChainEnds(c.conds[i], CFanIn, true);
        }
      }
    }
  }

  lemma {:induction false} SeriesEnds(c: Cond, k: nat, next: Chain, up: bool)
    requires c.And? && k <= Parts(c) && Ends(next, up)
    ensures Ends(Series(c, k, next), up)
    decreases c, Parts(c) - k
  {
    if k < Parts(c) {
      SeriesEnds(c, k + 1, next, up);
      ChainEnds(c.conds[k], Series(c, k + 1, next), up);
    }
  }

  function TruthP(c: Cond): Pred {
    (row: Row) => Truth(c, row)
  }

  /** Push time: a change entering the wired region comes out of its filter end as exactly the
      change that the condition's truth on the old and new row implies, and nothing is left. */
  lemma {:induction false} RegionPushes(nodes: seq<Link>, c: Cond, lo: nat, end: nat, change: Change)
    requires Laid(nodes, c, lo, Some(end)) && end < |nodes| && nodes[end].FilterEnd?
    ensures Unfolds(nodes, Head(c, lo), ChainOf(c, CEnd))
    ensures ChainPush(nodes, Head(c, lo), change, ChainOf(c, CEnd)) == Pushed([], Implied(TruthP(c), change))
    ensures Calm(nodes, Head(c, lo), change, ChainOf(c, CEnd))
  {
    hide *;
    EndUnfolds(nodes, end);
    LaidUnfolds(nodes, c, lo, end, CEnd);
    ChainEnds(c, CEnd, false);
    PushIs(nodes, Head(c, lo), change, ChainOf(c, CEnd), false);
    PushCalm(nodes, Head(c, lo), change, ChainOf(c, CEnd), false);
    TruthPasses(c, change.node.row);
    if change.Edit? { TruthPasses(c, change.old_.row); }
    ImpliedSame(PassP(ChainOf(c, CEnd)), TruthP(c), change);
    OutletIs(Implied(TruthP(c), change));
  }

  lemma EndUnfolds(nodes: seq<Link>, end: nat)
    requires end < |nodes| && nodes[end].FilterEnd?
    ensures Unfolds(nodes, end, CEnd) && Ends(CEnd, false)
  {
  }

  lemma TruthPasses(c: Cond, row: Row)
    ensures PassP(ChainOf(c, CEnd))(row) == TruthP(c)(row)
  {
    ChainMeans(c, CEnd, row);
  }

  lemma OutletIs(cs: seq<Change>)
    ensures Outlet(false, cs) == Pushed([], cs)
  {
  }

  // ---- what the region keeps ----

  /** A change of a table's rows as a change of nodes carries it. */
  function RowChange(c: Change): CH.SourceChange
    requires !c.Child?
  {
    match c
    case Add(n) => CH.Add(n.row)
    case Remove(n) => CH.Remove(n.row)
    case Edit(node, old_) => CH.Edit(old_.row, node.row)
  }

  /** The letting-out is what maintains a filtered set: for every legal change of a sorted set, what a
      filter lets out is legal for the rows it accepts and turns them into the accepted rows of the
      changed set. */
  lemma {:induction false} ImpliedMaintains(f: Pred, sort: Sort, rows: seq<Row>, c: Change)
    requires !c.Child? && Sorted(SortLt(sort), rows) && CH.Legal(SortLt(sort), rows, RowChange(c))
    ensures var (lt, out) := (SortLt(sort), Implied(f, c));
      && |out| <= 1 && (|out| == 1 ==> !out[0].Child? && CH.Legal(lt, CU.Filter(f, rows), RowChange(out[0])))
      && CU.Filter(f, CH.Applied(lt, rows, RowChange(c)))
         == if |out| == 1 then CH.Applied(lt, CU.Filter(f, rows), RowChange(out[0])) else CU.Filter(f, rows)
  {
    var lt := SortLt(sort);
    SortIsStrictWeak(sort);
    hide CH.Applied;
    hide CH.Legal;
    hide SortLt;
    hide CU.Filter;
    if c.Edit? && f(c.old_.row) != f(c.node.row) {
      var mid := CH.Applied(lt, rows, CH.Remove(c.old_.row));
      MS.LegalSplit(lt, rows, c.old_.row, c.node.row);
      J.PartAfter(sort, f, rows, CH.Remove(c.old_.row));
      CH.AppliedSorted(lt, rows, CH.Remove(c.old_.row));
      J.PartAfter(sort, f, mid, CH.Add(c.node.row));
    } else {
      J.PartAfter(sort, f, rows, RowChange(c));
    }
  }

  /** A wired region maintains the rows its condition accepts. */
  lemma {:induction false} RegionMaintains(nodes: seq<Link>, c: Cond, lo: nat, end: nat, change: Change, sort: Sort,
      rows: seq<Row>)
    requires Laid(nodes, c, lo, Some(end)) && end < |nodes| && nodes[end].FilterEnd?
    requires !change.Child? && Sorted(SortLt(sort), rows) && CH.Legal(SortLt(sort), rows, RowChange(change))
    ensures Unfolds(nodes, Head(c, lo), ChainOf(c, CEnd))
    ensures var (lt, out) := (SortLt(sort), ChainPush(nodes, Head(c, lo), change, ChainOf(c, CEnd)).delivered);
      && |out| <= 1 && (|out| == 1 ==> !out[0].Child? && CH.Legal(lt, CU.Filter(TruthP(c), rows), RowChange(out[0])))
      && CU.Filter(TruthP(c), CH.Applied(lt, rows, RowChange(change)))
         == if |out| == 1 then CH.Applied(lt, CU.Filter(TruthP(c), rows), RowChange(out[0]))
            else CU.Filter(TruthP(c), rows)
  {
    hide *;
    RegionPushes(nodes, c, lo, end, change);
    ImpliedMaintains(TruthP(c), sort, rows, change);
  }
}
