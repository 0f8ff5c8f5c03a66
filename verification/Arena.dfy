/** The generational arena of rust/src/graph.rs: slots recycled through a free list, ids carrying
    the generation they were issued at. */
module Arena {
  import opened Values
  import opened Lists

  const U32 := 0x1_0000_0000

  /** A slot index and the generation of its tenant. */
  datatype NodeId = NodeId(idx: nat, gen: nat)

  /** What matters of an operator here: whether it is a removable source and how many
      connections still read it. */
  datatype Operator = MemorySource(liveConns: nat) | DynSource | Other | Tombstone

  /** What the run so far means for the slots: every generation a slot has passed was issued and
      is freed; its current one is live exactly when the slot is not on the free list. */
  ghost predicate Sound(gens: seq<nat>, free: seq<nat>, issued: set<NodeId>, freed: set<NodeId>) {
    && (forall k :: 0 <= k < |free| ==> free[k] < |gens|)
    && (forall j, k :: 0 <= j < k < |free| ==> free[j] != free[k])
    && (forall id :: id in issued ==>
      id.idx < |gens| && id.gen <= gens[id.idx] && (id.gen == gens[id.idx] ==> id.idx !in free))
    && (forall id: NodeId ::
      id.idx < |gens| && (id.gen < gens[id.idx] || (id.gen == gens[id.idx] && id.idx !in free)) ==> id in issued)
    && (forall id :: id in freed <==> id in issued && id.gen < gens[id.idx])
  }

  /** A generation check on an issued id succeeds exactly when the id has not been freed. */
  lemma CheckIsLiveness(gens: seq<nat>, free: seq<nat>, issued: set<NodeId>, freed: set<NodeId>, id: NodeId)
    requires Sound(gens, free, issued, freed) && id in issued
    ensures id.idx < |gens| && (gens[id.idx] == id.gen <==> id !in freed)
  {
  }

  /** The free list holds exactly the slots without a live id, each once. */
  lemma FreeIsVacant(gens: seq<nat>, free: seq<nat>, issued: set<NodeId>, freed: set<NodeId>, i: nat)
    requires Sound(gens, free, issued, freed) && i < |gens|
    ensures i in free <==> forall g: nat :: NodeId(i, g) in issued ==> NodeId(i, g) in freed
  {
    if i !in free {
      assert NodeId(i, gens[i]) in issued && NodeId(i, gens[i]) !in freed;
    }
  }

  lemma {:induction false} PopSound(gens: seq<nat>, free: seq<nat>, issued: set<NodeId>, freed: set<NodeId>)
    requires Sound(gens, free, issued, freed) && free != []
    ensures var idx := free[|free| - 1];
      && idx < |gens| && NodeId(idx, gens[idx]) !in issued
      && Sound(gens, free[..|free| - 1], issued + {NodeId(idx, gens[idx])}, freed)
  {
    var (idx, rest) := (free[|free| - 1], free[..|free| - 1]);
    assert idx in free && idx !in rest;
    assert free == rest + [idx];
    var id := NodeId(idx, gens[idx]);
    assert id !in issued;
    forall x: NodeId | x.idx < |gens| && (x.gen < gens[x.idx] || (x.gen == gens[x.idx] && x.idx !in rest))
      ensures x in issued + {id}
    {
      if x != id {
        assert x.idx != idx || x.gen < gens[x.idx];
        assert x.idx !in rest ==> x.idx == idx || x.idx !in free;
      }
    }
  }

  lemma {:induction false} GrowSound(gens: seq<nat>, free: seq<nat>, issued: set<NodeId>, freed: set<NodeId>)
    requires Sound(gens, free, issued, freed)
    ensures NodeId(|gens|, 0) !in issued && Sound(gens + [0], free, issued + {NodeId(|gens|, 0)}, freed)
  {
    var (gens', id) := (gens + [0], NodeId(|gens|, 0));
    assert |gens| !in free;
    forall x: NodeId | x.idx < |gens'| && (x.gen < gens'[x.idx] || (x.gen == gens'[x.idx] && x.idx !in free))
      ensures x in issued + {id}
    {
      if x.idx < |gens| { assert gens'[x.idx] == gens[x.idx]; }
    }
  }

  lemma {:induction false} FreeSound(gens: seq<nat>, free: seq<nat>, issued: set<NodeId>, freed: set<NodeId>,
      id: NodeId)
    requires Sound(gens, free, issued, freed) && id in issued && gens[id.idx] == id.gen
    ensures id.idx < |gens| && id !in freed
    ensures Sound(gens[id.idx := id.gen + 1], free + [id.idx], issued, freed + {id})
  {
    var (gens', free') := (gens[id.idx := id.gen + 1], free + [id.idx]);
    forall x ensures x in freed + {id} <==> x in issued && x.gen < gens'[x.idx] {
      if x in issued && x.idx == id.idx && x.gen == id.gen { assert x == id; }
    }
    forall x | x in issued ensures x.gen <= gens'[x.idx] && (x.gen == gens'[x.idx] ==> x.idx !in free') {
      assert x.gen <= gens[x.idx];
    }
    forall x: NodeId | x.idx < |gens'| && (x.gen < gens'[x.idx] || (x.gen == gens'[x.idx] && x.idx !in free'))
      ensures x in issued
    {
      if x.idx == id.idx && x.gen == id.gen { assert x == id; }
    }
  }

  /** The bumped generation of a slot names an id never issued before exactly when the bump does
      not wrap. */
  lemma {:induction false} WrapRepeats(gens: seq<nat>, free: seq<nat>, issued: set<NodeId>, freed: set<NodeId>, i: nat)
    requires Sound(gens, free, issued, freed) && i < |gens| && gens[i] < U32
    ensures NodeId(i, (gens[i] + 1) % U32) !in issued <==> gens[i] + 1 < U32
  {
    if gens[i] + 1 == U32 { assert NodeId(i, 0) in issued; }
  }

  /** Two live ids never share a slot. */
  lemma LiveApart(gens: seq<nat>, free: seq<nat>, issued: set<NodeId>, freed: set<NodeId>, x: NodeId, y: NodeId)
    requires Sound(gens, free, issued, freed) && x in issued - freed && y in issued - freed && x != y
    ensures x.idx != y.idx
  {
  }

  datatype Outcome = Done | Refused | Panicked

  class Graph {
    var nodes: seq<Operator>
    var nodeGens: seq<nat>
    var freeNodes: seq<nat>
    var recording: Option<seq<NodeId>>
    ghost var issued: set<NodeId>
    ghost var freed: set<NodeId>

    ghost predicate Valid()
      reads this
    {
      && |nodes| == |nodeGens| && Sound(nodeGens, freeNodes, issued, freed)
      && (forall k :: 0 <= k < |freeNodes| ==> freeNodes[k] < |nodes| && nodes[freeNodes[k]] == Tombstone)
      && (recording.Some? ==> forall id :: id in recording.value ==> id in issued)
    }

    constructor ()
      ensures Valid() && issued == {} && freed == {} && nodes == [] && recording == None
    {
      nodes, nodeGens, freeNodes, recording := [], [], [], None;
      issued, freed := {}, {};
    }

    /** `add`: a recycled slot under its bumped generation, or a new slot; never an id issued
        before. */
    method Add(op: Operator) returns (id: NodeId)
      requires Valid()
      modifies this
      ensures Valid() && id !in old(issued) && issued == old(issued) + {id} && freed == old(freed)
      ensures id.idx < |nodes| && nodes[id.idx] == op && nodeGens[id.idx] == id.gen
      ensures |old(nodes)| <= |nodes|
      ensures forall x :: x in old(issued) - freed ==> x.idx < |old(nodes)| && nodes[x.idx] == old(nodes)[x.idx]
      ensures recording == (if old(recording).Some? then Some(old(recording).value + [id]) else None)
      ensures old(freeNodes) == [] ==> |nodes| == |old(nodes)| + 1
      ensures old(freeNodes) != [] ==> |nodes| == |old(nodes)| && |freeNodes| == |old(freeNodes)| - 1
    {
      if freeNodes != [] {
        PopSound(nodeGens, freeNodes, issued, freed);
        var idx := freeNodes[|freeNodes| - 1];
        assert idx in freeNodes;
        id := NodeId(idx, nodeGens[idx]);
        nodes, freeNodes := nodes[idx := op], freeNodes[..|freeNodes| - 1];
      } else {
        GrowSound(nodeGens, freeNodes, issued, freed);
        id := NodeId(|nodes|, 0);
        nodes, nodeGens := nodes + [op], nodeGens + [0];
      }
      issued := issued + {id};
      if recording.Some? { recording := Some(recording.value + [id]); }
    }

    method BeginRecording()
      requires Valid()
      modifies `recording
      ensures Valid() && recording == Some([])
    {
      recording := Some([]);
    }

    method TakeRecording() returns (manifest: seq<NodeId>)
      requires Valid()
      modifies `recording
      ensures Valid() && recording == None && (forall id :: id in manifest ==> id in issued)
      ensures manifest == if old(recording).Some? then old(recording).value else []
    {
      manifest := if recording.Some? then recording.value else [];
      recording := None;
    }

    /** `node`: the generation-checked lookup; `None` where the source panics. */
    method Lookup(id: NodeId) returns (op: Option<Operator>)
      requires Valid() && id in issued
      ensures op.Some? <==> id !in freed
      ensures op.Some? ==> id.idx < |nodes| && op.value == nodes[id.idx]
    {
      CheckIsLiveness(nodeGens, freeNodes, issued, freed, id);
      op := if nodeGens[id.idx] == id.gen then Some(nodes[id.idx]) else None;
    }

    /** Tombstone one slot and put it on the free list; the caller has checked its generation. */
    method FreeSlot(id: NodeId)
      requires Valid() && id in issued && id !in freed && id.gen + 1 < U32
      modifies this
      ensures Valid() && issued == old(issued) && freed == old(freed) + {id} && recording == old(recording)
      ensures |nodes| == |old(nodes)| && id.idx < |nodes| && nodes == old(nodes)[id.idx := Tombstone]
      ensures forall x :: x in issued - freed ==> x.idx < |nodes| && nodes[x.idx] == old(nodes)[x.idx]
    {
      hide Sound;
      forall x | x in issued - freed && x != id ensures x.idx < |nodes| && x.idx != id.idx {
        CheckIsLiveness(nodeGens, freeNodes, issued, freed, x);
        LiveApart(nodeGens, freeNodes, issued, freed, x, id);
      }
      CheckIsLiveness(nodeGens, freeNodes, issued, freed, id);
      FreeSound(nodeGens, freeNodes, issued, freed, id);
      nodes := nodes[id.idx := Tombstone];
      nodeGens := nodeGens[id.idx := (nodeGens[id.idx] + 1) % U32];
      freeNodes := freeNodes + [id.idx];
      freed := freed + {id};
    }

    /** The first pass of a teardown: every id must pass its check. */
    method LookupAll(manifest: seq<NodeId>) returns (ok: bool)
      requires Valid() && (forall id :: id in manifest ==> id in issued)
      ensures ok <==> forall id :: id in manifest ==> id !in freed
    {
      var j := 0;
      while j < |manifest|
        invariant j <= |manifest| && forall id :: id in manifest[..j] ==> id !in freed
      {
        assert manifest[j] in manifest;
        var op := Lookup(manifest[j]);
        if op.None? { return false; }
        assert manifest[..j + 1] == manifest[..j] + [manifest[j]];
        j := j + 1;
      }
      assert manifest[..j] == manifest;
      ok := true;
    }

    /** `destroy_pipeline` on the node arena.  The first pass looks every id up, so a freed id
        panics with nothing changed; the second frees them one by one, so a repeated id is caught
        by its generation with the `n` ids before it freed. */
    method DestroyPipeline(manifest: seq<NodeId>) returns (o: Outcome, n: nat)
      requires Valid() && (forall id :: id in manifest ==> id in issued)
      requires forall id :: id in manifest ==> id.gen + 1 < U32
      modifies this
      ensures Valid() && issued == old(issued) && recording == old(recording) && !o.Refused?
      ensures n <= |manifest| && freed == old(freed) + (set id | id in manifest[..n])
      ensures o.Done? <==> NoRepeats(manifest) && forall id :: id in manifest ==> id !in old(freed)
      ensures o.Done? ==> n == |manifest|
      ensures o.Panicked? && (exists id :: id in manifest && id in old(freed)) ==>
        n == 0 && nodes == old(nodes) && nodeGens == old(nodeGens) && freeNodes == old(freeNodes)
      ensures o.Panicked? && (forall id :: id in manifest ==> id !in old(freed)) ==>
        n < |manifest| && NoRepeats(manifest[..n]) && manifest[n] in manifest[..n]
      ensures |nodes| == |old(nodes)|
      ensures forall x :: x in issued - freed ==> x.idx < |nodes| && nodes[x.idx] == old(nodes)[x.idx]
      ensures forall id :: id in manifest[..n] ==> id.idx < |nodes| && nodes[id.idx] == Tombstone
    {
      hide Sound;
      forall x | x in issued ensures x.idx < |nodes| { CheckIsLiveness(nodeGens, freeNodes, issued, freed, x); }
      n := 0;
      assert manifest[..0] == [];
      var found := LookupAll(manifest);
      if !found { return Panicked, 0; }
      while n < |manifest|
        invariant n <= |manifest| && Valid() && issued == old(issued) && recording == old(recording)
        invariant freed == old(freed) + (set id | id in manifest[..n])
        invariant NoRepeats(manifest[..n]) && forall id :: id in manifest ==> id !in old(freed)
        invariant |nodes| == |old(nodes)|
        invariant forall x :: x in issued - freed ==> x.idx < |nodes| && nodes[x.idx] == old(nodes)[x.idx]
        invariant forall id :: id in manifest[..n] ==> id.idx < |nodes| && nodes[id.idx] == Tombstone
      {
        var id := manifest[n];
        assert id in manifest;
        CheckIsLiveness(nodeGens, freeNodes, issued, freed, id);
        if nodeGens[id.idx] != id.gen {
          FoundStale(manifest, n, old(freed), freed);
          return Panicked, n;
        }
        FreeSlot(id);
        assert manifest[..n + 1] == manifest[..n] + [id];
        NoRepeatsSnoc(manifest[..n], id);
        n := n + 1;
      }
      assert manifest[..n] == manifest;
      o := Done;
    }

    /** `remove_source`: only a live in-memory source that nothing reads any more. */
    method RemoveSource(id: NodeId) returns (o: Outcome)
      requires Valid() && id in issued && id.gen + 1 < U32
      modifies this
      ensures Valid() && issued == old(issued) && recording == old(recording)
      ensures o.Panicked? <==> id in old(freed)
      ensures o.Done? <==> id !in old(freed) && id.idx < |old(nodes)| && old(nodes)[id.idx] == MemorySource(0)
      ensures o.Done? ==> freed == old(freed) + {id}
      ensures o.Done? ==> |nodes| == |old(nodes)| && id.idx < |nodes| && nodes[id.idx] == Tombstone
      ensures forall x :: x in issued - freed ==> x.idx < |nodes| && nodes[x.idx] == old(nodes)[x.idx]
      ensures !o.Done? ==>
        nodes == old(nodes) && nodeGens == old(nodeGens) && freeNodes == old(freeNodes) && freed == old(freed)
    {
      hide Sound;
      forall x | x in issued ensures x.idx < |nodes| { CheckIsLiveness(nodeGens, freeNodes, issued, freed, x); }
      var op := Lookup(id);
      if op.None? { return Panicked; }
      if op.value != MemorySource(0) { return Refused; }
      FreeSlot(id);
      o := Done;
    }
  }

  lemma FoundStale(manifest: seq<NodeId>, i: nat, before: set<NodeId>, freed: set<NodeId>)
    requires i < |manifest| && manifest[i] in freed && freed == before + (set id | id in manifest[..i])
    ensures !(NoRepeats(manifest) && forall id :: id in manifest ==> id !in before)
  {
    if manifest[i] !in before {
      assert manifest[i] in manifest[..i];
      var j :| 0 <= j < i && manifest[..i][j] == manifest[i];
      assert manifest[j] == manifest[i];
    } else {
      assert manifest[i] in manifest;
    }
  }

  // ---- every run ----

  datatype Op =
    | AddNode(op: Operator)
    | Begin
    | Take
    | Destroy(k: nat)
    | RemoveNode(k: nat)

  datatype Stop = Finished | Broke | WouldWrap

  /** An arena that never recycles: operators numbered in the order of their addition, the dead ones
      remembered for ever, recordings and manifests as lists of numbers. */
  datatype Ledger = Ledger(added: seq<Operator>, dead: set<nat>, recording: Option<seq<nat>>, kept: seq<seq<nat>>)

  const EMPTY := Ledger([], {}, None, [])

  /** One operation on it; `None` is a panic. */
  function Step(l: Ledger, op: Op): Option<Ledger> {
    match op
    case AddNode(o) =>
      Some(l.(added := l.added + [o],
              recording := if l.recording.Some? then Some(l.recording.value + [|l.added|]) else None))
    case Begin => Some(l.(recording := Some([])))
    case Take => Some(l.(recording := None, kept := l.kept + [if l.recording.Some? then l.recording.value else []]))
    case Destroy(k) =>
      if k >= |l.kept| then Some(l)
      else if exists i :: 0 <= i < |l.kept[k]| && l.kept[k][i] in l.dead then None
      else Some(l.(dead := l.dead + set n | n in l.kept[k]))
    case RemoveNode(k) =>
      if k >= |l.added| then Some(l)
      else if k in l.dead then None
      else if l.added[k] == MemorySource(0) then Some(l.(dead := l.dead + {k}))
      else Some(l)
  }

  function Steps(ops: seq<Op>): Option<Ledger> {
    if ops == [] then Some(EMPTY)
    else
      var before := Steps(ops[..|ops| - 1]);
      if before.None? then None else Step(before.value, ops[|ops| - 1])
  }

  lemma StepsSnoc(ops: seq<Op>, op: Op)
    requires Steps(ops).Some?
    ensures Steps(ops + [op]) == Step(Steps(ops).value, op)
  {
    assert (ops + [op])[..|ops|] == ops;
  }

  function Named(ids: seq<NodeId>, ns: seq<nat>): seq<NodeId>
    requires forall n :: n in ns ==> n < |ids|
  {
    seq(|ns|, i requires 0 <= i < |ns| => assert ns[i] in ns; ids[ns[i]])
  }

  /** The numbers a ledger speaks of are those of its operators, and no recording repeats one. */
  ghost predicate Proper(l: Ledger) {
    && (forall n :: n in l.dead ==> n < |l.added|)
    && (l.recording.Some? ==> NoRepeats(l.recording.value) && forall n :: n in l.recording.value ==> n < |l.added|)
    && (forall m :: m in l.kept ==> NoRepeats(m) && forall n :: n in m ==> n < |l.added|)
  }

  /** The id of each number is freed exactly when the number is dead, and a live id finds the operator
      it was added with. */
  ghost predicate Places(nodes: seq<Operator>, issued: set<NodeId>, freed: set<NodeId>, ids: seq<NodeId>, l: Ledger) {
    && |ids| == |l.added| && NoRepeats(ids) && issued == (set id | id in ids)
    && (forall n :: 0 <= n < |ids| ==> (ids[n] in freed <==> n in l.dead))
    && (forall n :: 0 <= n < |ids| && n !in l.dead ==> ids[n].idx < |nodes| && nodes[ids[n].idx] == l.added[n])
  }

  /** Recordings and manifests name the ledger's numbers. */
  ghost predicate Recorded(recording: Option<seq<NodeId>>, ids: seq<NodeId>, ms: seq<seq<NodeId>>, l: Ledger) {
    && Proper(l) && |ids| == |l.added|
    && recording == (if l.recording.Some? then Some(Named(ids, l.recording.value)) else None)
    && |ms| == |l.kept| && forall k :: 0 <= k < |ms| ==> ms[k] == (assert l.kept[k] in l.kept; Named(ids, l.kept[k]))
  }

  /** A recycling arena stands for a ledger. */
  ghost predicate StandsFor(g: Graph, ids: seq<NodeId>, ms: seq<seq<NodeId>>, l: Ledger)
    reads g
  {
    g.Valid() && Places(g.nodes, g.issued, g.freed, ids, l) && Recorded(g.recording, ids, ms, l)
  }

  lemma NamedGrows(ids: seq<NodeId>, id: NodeId, ns: seq<nat>)
    requires forall n :: n in ns ==> n < |ids|
    ensures Named(ids + [id], ns) == Named(ids, ns)
    ensures Named(ids + [id], ns + [|ids|]) == Named(ids, ns) + [id]
  {
    assert forall i :: 0 <= i < |ns| ==> ns[i] in ns;
  }

  lemma NamedIs(ids: seq<NodeId>, ns: seq<nat>)
    requires NoRepeats(ids) && NoRepeats(ns) && forall n :: n in ns ==> n < |ids|
    ensures NoRepeats(Named(ids, ns)) && forall id :: id in Named(ids, ns) ==> id in ids
    ensures forall n :: 0 <= n < |ids| ==> (ids[n] in Named(ids, ns) <==> n in ns)
  {
    var m := Named(ids, ns);
    assert forall i :: 0 <= i < |ns| ==> ns[i] in ns && m[i] == ids[ns[i]];
    forall n | 0 <= n < |ids| ensures ids[n] in m <==> n in ns {
      if n in ns {
        var i :| 0 <= i < |ns| && ns[i] == n;
        assert m[i] == ids[n];
      }
      if ids[n] in m {
        var i :| 0 <= i < |m| && m[i] == ids[n];
        assert ids[ns[i]] == ids[n];
      }
    }
  }

  lemma RecordedGrows(rec: Option<seq<NodeId>>, ids: seq<NodeId>, ms: seq<seq<NodeId>>, l: Ledger, id: NodeId,
      op: Operator)
    requires Recorded(rec, ids, ms, l)
    ensures Recorded(if rec.Some? then Some(rec.value + [id]) else None, ids + [id], ms, Step(l, AddNode(op)).value)
  {
    var (n, l') := (|ids|, Step(l, AddNode(op)).value);
    if l.recording.Some? {
      NamedGrows(ids, id, l.recording.value);
      NoRepeatsSnoc(l.recording.value, n);
    }
    forall k | 0 <= k < |ms| ensures ms[k] == (assert l'.kept[k] in l'.kept; Named(ids + [id], l'.kept[k])) {
      assert l.kept[k] in l.kept;
      NamedGrows(ids, id, l.kept[k]);
    }
  }

  method RunAdd(g: Graph, op: Operator, ids: seq<NodeId>, ghost ms: seq<seq<NodeId>>, ghost l: Ledger)
      returns (ids': seq<NodeId>)
    requires StandsFor(g, ids, ms, l)
    modifies g
    ensures StandsFor(g, ids', ms, Step(l, AddNode(op)).value)
  {
    hide Sound;
    hide Graph.Valid;
    hide Recorded;
    ghost var (rec, nodes, issued) := (g.recording, g.nodes, g.issued);
    FreedIssued(g);
    RecordedProper(rec, ids, ms, l);
    var id := g.Add(op);
    ids' := ids + [id];
    PlacesGrow(nodes, g.nodes, issued, g.freed, ids, l, id, op);
    RecordedGrows(rec, ids, ms, l, id, op);
  }

  lemma FreedIssued(g: Graph)
    requires g.Valid()
    ensures g.freed <= g.issued
  {
  }

  lemma RecordedProper(rec: Option<seq<NodeId>>, ids: seq<NodeId>, ms: seq<seq<NodeId>>, l: Ledger)
    requires Recorded(rec, ids, ms, l)
    ensures |ids| !in l.dead
  {
  }

  lemma PlacesGrow(nodes: seq<Operator>, nodes': seq<Operator>, issued: set<NodeId>, freed: set<NodeId>,
      ids: seq<NodeId>, l: Ledger, id: NodeId, op: Operator)
    requires Places(nodes, issued, freed, ids, l) && id !in issued && freed <= issued && |ids| !in l.dead
    requires id.idx < |nodes'| && nodes'[id.idx] == op
    requires forall x :: x in issued - freed ==> x.idx < |nodes| <= |nodes'| && nodes'[x.idx] == nodes[x.idx]
    ensures Places(nodes', issued + {id}, freed, ids + [id], Step(l, AddNode(op)).value)
  {
    NoRepeatsSnoc(ids, id);
    assert forall n :: 0 <= n < |ids| ==> ids[n] in issued;
  }

  lemma RecordedTaken(rec: Option<seq<NodeId>>, ids: seq<NodeId>, ms: seq<seq<NodeId>>, l: Ledger)
    requires Recorded(rec, ids, ms, l)
    ensures Recorded(None, ids, ms + [if rec.Some? then rec.value else []], Step(l, Take).value)
    ensures Recorded(Some([]), ids, ms, Step(l, Begin).value)
  {
    var l' := Step(l, Take).value;
    assert Named(ids, []) == [];
    forall m | m in l'.kept ensures NoRepeats(m) && forall n :: n in m ==> n < |l'.added| {
      assert m in l.kept || m == l'.kept[|l.kept|];
    }
  }

  method RunBegin(g: Graph, ids: seq<NodeId>, ghost ms: seq<seq<NodeId>>, ghost l: Ledger)
    requires StandsFor(g, ids, ms, l)
    modifies g
    ensures StandsFor(g, ids, ms, Step(l, Begin).value)
  {
    hide Sound;
    hide Graph.Valid;
    hide Recorded;
    RecordedTaken(g.recording, ids, ms, l);
    g.BeginRecording();
  }

  method RunTake(g: Graph, ids: seq<NodeId>, ms: seq<seq<NodeId>>, ghost l: Ledger) returns (ms': seq<seq<NodeId>>)
    requires StandsFor(g, ids, ms, l)
    modifies g
    ensures StandsFor(g, ids, ms', Step(l, Take).value)
  {
    hide Sound;
    hide Graph.Valid;
    hide Recorded;
    RecordedTaken(g.recording, ids, ms, l);
    var m := g.TakeRecording();
    ms' := ms + [m];
  }

  lemma KeptIs(rec: Option<seq<NodeId>>, ids: seq<NodeId>, ms: seq<seq<NodeId>>, l: Ledger, k: nat)
    requires Recorded(rec, ids, ms, l) && k < |ms|
    ensures k < |l.kept| && NoRepeats(l.kept[k]) && (forall n :: n in l.kept[k] ==> n < |ids|)
    ensures ms[k] == Named(ids, l.kept[k])
    ensures Recorded(rec, ids, ms, l.(dead := l.dead + set n | n in l.kept[k]))
  {
    assert l.kept[k] in l.kept;
  }

  /** What a kept manifest is to the arena. */
  lemma ManifestIs(rec: Option<seq<NodeId>>, nodes: seq<Operator>, issued: set<NodeId>, freed: set<NodeId>,
      ids: seq<NodeId>, ms: seq<seq<NodeId>>, l: Ledger, k: nat)
    requires Places(nodes, issued, freed, ids, l) && Recorded(rec, ids, ms, l) && k < |ms|
    ensures k < |l.kept| && NoRepeats(ms[k]) && forall id :: id in ms[k] ==> id in issued
    ensures forall n :: 0 <= n < |ids| ==> (ids[n] in ms[k] <==> n in l.kept[k])
    ensures (exists i :: 0 <= i < |l.kept[k]| && l.kept[k][i] in l.dead) <==> exists id :: id in ms[k] && id in freed
    ensures Recorded(rec, ids, ms, l.(dead := l.dead + set n | n in l.kept[k]))
  {
    hide Recorded;
    KeptIs(rec, ids, ms, l, k);
    NamedIs(ids, l.kept[k]);
    NamedDead(freed, ids, l.dead, l.kept[k]);
    hide Named;
    hide NoRepeats;
  }

  lemma NamedDead(freed: set<NodeId>, ids: seq<NodeId>, dead: set<nat>, ns: seq<nat>)
    requires (forall n :: 0 <= n < |ids| ==> (ids[n] in freed <==> n in dead)) && forall n :: n in ns ==> n < |ids|
    ensures (exists i :: 0 <= i < |ns| && ns[i] in dead) <==> exists id :: id in Named(ids, ns) && id in freed
  {
    var m := Named(ids, ns);
    assert forall i :: 0 <= i < |ns| ==> ns[i] in ns && m[i] == ids[ns[i]];
    if i :| 0 <= i < |ns| && ns[i] in dead { assert m[i] in m; }
    if id :| id in m && id in freed {
      var i :| 0 <= i < |m| && m[i] == id;
      assert ns[i] in dead;
    }
  }

  lemma ManifestIssued(g: Graph, ids: seq<NodeId>, ms: seq<seq<NodeId>>, l: Ledger, k: nat)
    requires StandsFor(g, ids, ms, l)
    ensures |ids| == |l.added| && |ms| == |l.kept|
    ensures k < |ms| ==> forall id :: id in ms[k] ==> id in ids
  {
    if k < |ms| { ManifestIs(g.recording, g.nodes, g.issued, g.freed, ids, ms, l, k); }
  }

  method RunDestroy(g: Graph, k: nat, ids: seq<NodeId>, ms: seq<seq<NodeId>>, ghost l: Ledger) returns (ok: bool)
    requires StandsFor(g, ids, ms, l) && k < |ms| && forall id :: id in ms[k] ==> id.gen + 1 < U32
    modifies g
    ensures ok <==> Step(l, Destroy(k)).Some?
    ensures StandsFor(g, ids, ms, if ok then Step(l, Destroy(k)).value else l)
  {
    hide Sound;
    hide Graph.Valid;
    hide Recorded;
    ManifestIs(g.recording, g.nodes, g.issued, g.freed, ids, ms, l, k);
    var o, n := g.DestroyPipeline(ms[k]);
    ok := o.Done?;
    if ok { assert ms[k][..n] == ms[k]; }
  }

  method RunRemove(g: Graph, k: nat, ids: seq<NodeId>, ghost ms: seq<seq<NodeId>>, ghost l: Ledger) returns (ok: bool)
    requires StandsFor(g, ids, ms, l) && k < |ids| && ids[k].gen + 1 < U32
    modifies g
    ensures ok <==> Step(l, RemoveNode(k)).Some?
    ensures StandsFor(g, ids, ms, if ok then Step(l, RemoveNode(k)).value else l)
  {
    hide Sound;
    hide Graph.Valid;
    assert ids[k] in ids;
    var o := g.RemoveSource(ids[k]);
    ok := !o.Panicked?;
  }

  /** One operation: the arena follows the ledger, or stands still where it panics or would wrap. */
  method RunOne(g: Graph, op: Op, ids: seq<NodeId>, ms: seq<seq<NodeId>>, ghost l: Ledger)
      returns (ids': seq<NodeId>, ms': seq<seq<NodeId>>, stop: Stop)
    requires StandsFor(g, ids, ms, l)
    modifies g
    ensures stop.Finished? ==> Step(l, op).Some? && StandsFor(g, ids', ms', Step(l, op).value)
    ensures !stop.Finished? ==> StandsFor(g, ids', ms', l)
    ensures stop.Broke? ==> Step(l, op).None?
    ensures stop.WouldWrap? ==> exists id :: id in ids' && id.gen + 1 >= U32
  {
    hide StandsFor;
    hide Graph.Valid;
    ids', ms', stop := ids, ms, Finished;
    var ok := true;
    ManifestIssued(g, ids, ms, l, if op.Destroy? then op.k else 0);
    match op {
      case AddNode(o) => ids' := RunAdd(g, o, ids, ms, l);
      case Begin => RunBegin(g, ids, ms, l);
      case Take => ms' := RunTake(g, ids, ms, l);
      case Destroy(k) =>
        if k < |ms| {
          if i :| 0 <= i < |ms[k]| && ms[k][i].gen + 1 >= U32 {
            assert ms[k][i] in ms[k];
            return ids, ms, WouldWrap;
          }
          ok := RunDestroy(g, k, ids, ms, l);
        }
      case RemoveNode(k) =>
        if k < |ids| {
          if ids[k].gen + 1 >= U32 { return ids, ms, WouldWrap; }
          ok := RunRemove(g, k, ids, ms, l);
        }
    }
    if !ok { stop := Broke; }
  }

  /** Any run of additions, recordings, teardowns of recorded manifests and source removals, up to a
      panic or to a free that would wrap a generation: the arena stands for the ledger of the same
      run and panics exactly where it does; a lookup finds a live id's operator and fails on a dead
      one. */
  method RunAll(ops: seq<Op>)
      returns (g: Graph, ids: seq<NodeId>, ms: seq<seq<NodeId>>, done: nat, stop: Stop, ghost l: Ledger)
    ensures fresh(g) && done <= |ops| && Steps(ops[..done]) == Some(l) && StandsFor(g, ids, ms, l)
    ensures stop.Finished? ==> done == |ops|
    ensures stop.Broke? ==> done < |ops| && Step(l, ops[done]).None?
    ensures stop.WouldWrap? ==> done < |ops| && exists id :: id in ids && id.gen + 1 >= U32
    ensures |ids| == |l.added| && Shown(g, ids, l)
    ensures NoRepeats(g.freeNodes) && forall id :: id in ids && id.idx in g.freeNodes ==> id in g.freed
  {
    g := new Graph();
    ids, ms, done, stop, l := [], [], 0, Finished, EMPTY;
    assert StandsFor(g, ids, ms, l);
    hide *;
    while done < |ops|
      invariant done <= |ops| && fresh(g) && Steps(ops[..done]) == Some(l) && StandsFor(g, ids, ms, l)
      invariant stop.Finished?
    {
      assert ops[..done + 1] == ops[..done] + [ops[done]];
      StepsSnoc(ops[..done], ops[done]);
      ids, ms, stop := RunOne(g, ops[done], ids, ms, l);
      if !stop.Finished? { break; }
      l := Step(l, ops[done]).value;
      done := done + 1;
    }
    RunSound(g, ids, ms, l);
  }

  /** What lookups give: a live id's operator, or a failed generation check for a dead one. */
  ghost predicate Shown(g: Graph, ids: seq<NodeId>, l: Ledger)
    requires |ids| == |l.added|
    reads g
  {
    forall n :: 0 <= n < |ids| ==>
      var id := ids[n];
      && id.idx < |g.nodes| == |g.nodeGens| && (g.nodeGens[id.idx] == id.gen <==> n !in l.dead)
      && (n !in l.dead ==> g.nodes[id.idx] == l.added[n])
  }

  lemma RunSound(g: Graph, ids: seq<NodeId>, ms: seq<seq<NodeId>>, l: Ledger)
    requires StandsFor(g, ids, ms, l)
    ensures |ids| == |l.added| && Shown(g, ids, l)
    ensures NoRepeats(g.freeNodes) && forall id :: id in ids && id.idx in g.freeNodes ==> id in g.freed
  {
    hide Recorded;
    forall n | 0 <= n < |ids|
      ensures ids[n].idx < |g.nodes| && (g.nodeGens[ids[n].idx] == ids[n].gen <==> n !in l.dead)
    {
      assert ids[n] in ids;
      CheckIsLiveness(g.nodeGens, g.freeNodes, g.issued, g.freed, ids[n]);
    }
  }
}
