/** The optimistic rebase loop of rust/src/optimistic.rs: every tracked table keeps a confirmed
    `sync` tree beside its live source; a rewind computes the confirmed state with the server's
    deltas, and pushes the structural difference through the live source. */
module Optimistic {
  import opened Values
  import opened Order
  import opened Changes
  import opened MemorySource
  import BT = BTree
  import SD = StructuralDiff

  datatype Entry = Entry(source: Source, sync: BT.Tree)

  type Deltas = map<string, seq<SourceChange>>

  function PkLt(pk: seq<ColId>): Lt {
    SortLt(PrimarySort(pk))
  }

  /** Step 1: `S' = fork(sync) + D`. */
  method ApplyDeltas(lt: Lt, sync: BT.Tree, ds: seq<SourceChange>) returns (t: BT.Tree)
    requires StrictWeak(lt) && BT.Ok(lt, sync)
    ensures BT.Ok(lt, t) && BT.Contents(t) == AppliedAll(lt, BT.Contents(sync), ds)
  {
    hide *;
    t := sync;
    var i := 0;
    AppliedNil(lt, BT.Contents(sync));
    assert ds[..0] == [];
    while i < |ds|
      invariant i <= |ds| && BT.Ok(lt, t)
      invariant BT.Contents(t) == AppliedAll(lt, BT.Contents(sync), ds[..i])
    {
      WriteTreeCorrect(lt, t, ds[i]);
      AppliedSnoc(lt, BT.Contents(sync), ds[..i], ds[i]);
      assert ds[..i + 1] == ds[..i] + [ds[i]];
      t := WriteTree(lt, t, ds[i]);
      i := i + 1;
    }
    assert ds[..i] == ds;
  }

  lemma AppliedNil(lt: Lt, s: seq<Row>)
    ensures AppliedAll(lt, s, []) == s
  {
  }

  lemma {:induction false} AppliedSnoc(lt: Lt, s: seq<Row>, cs: seq<SourceChange>, c: SourceChange)
    ensures AppliedAll(lt, s, cs + [c]) == Applied(lt, AppliedAll(lt, s, cs), c)
    decreases |cs|
  {
    hide Applied;
    if cs != [] {
      assert (cs + [c])[0] == cs[0] && (cs + [c])[1..] == cs[1..] + [c];
      AppliedSnoc(lt, Applied(lt, s, cs[0]), cs[1..], c);
    } else {
      assert cs + [c] == [c] && [c][1..] == [];
      AppliedNil(lt, Applied(lt, s, c));
    }
  }

  lemma AllLegalStep(lt: Lt, s: seq<Row>, cs: seq<SourceChange>)
    requires AllLegal(lt, s, cs) && cs != []
    ensures Legal(lt, s, cs[0]) && AllLegal(lt, Applied(lt, s, cs[0]), cs[1..])
    ensures AppliedAll(lt, s, cs) == AppliedAll(lt, Applied(lt, s, cs[0]), cs[1..])
  {
  }

  /** `structural_diff`: legal changes, in order, that turn one tree into the other. */
  method StructuralDiff(lt: Lt, head: BT.Tree, target: BT.Tree) returns (cs: seq<SourceChange>)
    requires StrictWeak(lt) && BT.Ok(lt, head) && BT.Ok(lt, target)
    ensures AllLegal(lt, BT.Contents(head), cs) && AppliedAll(lt, BT.Contents(head), cs) == BT.Contents(target)
    ensures cs == ChangesOf(SD.Diff(lt, BT.Contents(head), BT.Contents(target)))
  {
    hide *;
    var events := SD.DiffVisit(lt, head, target, true);
    cs := ChangesOf(events);
    RootOf(lt, head);
    RootOf(lt, target);
    var (t, o) := (BT.Contents(head), BT.Contents(target));
    assert t + [] == t && o + [] == o;
    DiffApplies(lt, t, o, []);
  }

  /** One table's rewind (steps 1 to 4).  Whatever the live source holds, it ends at the
      confirmed state with the deltas applied; every pushed change is legal when pushed, so no
      push is refused even under strict validation, and indexes that agreed still agree. */
  method RewindTable(e: Entry, ds: seq<SourceChange>, strict: bool)
    returns (ok: bool, e': Entry, pushed: seq<SourceChange>)
    requires EntryOk(e)
    modifies e.source`indexes
    ensures ok && e'.source == e.source && EntryOk(e')
    ensures PrimarySort(e.source.pk) in old(e.source.indexes)
    ensures AllLegal(PkLt(e.source.pk), old(Primary(e.source.pk, e.source.indexes)), pushed)
    ensures AppliedAll(PkLt(e.source.pk), old(Primary(e.source.pk, e.source.indexes)), pushed)
         == BT.Contents(e'.sync)
    ensures Primary(e.source.pk, e.source.indexes) == BT.Contents(e'.sync)
    ensures BT.Contents(e'.sync) == AppliedAll(PkLt(e.source.pk), BT.Contents(e.sync), ds)
    ensures old(Agree(e.source.pk, e.source.indexes)) ==> Agree(e.source.pk, e.source.indexes)
  {
    hide *;
    var src := e.source;
    var lt := PkLt(src.pk);
    EntryIs(e);
    PkLtIs(src.pk);
    PrimarySorted(src.pk, src.indexes);
    TreesAt(src.pk, src.indexes, PrimarySort(src.pk));
    PrimaryIs(src.pk, src.indexes);
    var target := ApplyDeltas(lt, e.sync, ds);
    var head := src.indexes[PrimarySort(src.pk)];
    var rewind := StructuralDiff(lt, head, target);
    pushed := rewind;
    var i := 0;
    assert rewind[0..] == rewind;
    while i < |rewind|
      invariant i <= |rewind| && Trees(src.pk, src.indexes)
      invariant PrimarySort(src.pk) in src.indexes
      invariant AllLegal(lt, Primary(src.pk, src.indexes), rewind[i..])
      invariant AppliedAll(lt, Primary(src.pk, src.indexes), rewind[i..]) == BT.Contents(target)
      invariant old(Agree(e.source.pk, e.source.indexes)) ==> Agree(e.source.pk, e.source.indexes)
    {
      AllLegalStep(lt, Primary(src.pk, src.indexes), rewind[i..]);
      assert rewind[i..][0] == rewind[i] && rewind[i..][1..] == rewind[i + 1..];
      ok := src.TryPush(rewind[i], strict);
      assert ok;
      PrimarySorted(src.pk, src.indexes);
      i := i + 1;
    }
    assert rewind[i..] == [];
    AppliedNil(lt, Primary(src.pk, src.indexes));
    TreesAt(src.pk, src.indexes, PrimarySort(src.pk));
    PrimaryIs(src.pk, src.indexes);
    e' := Entry(src, src.indexes[PrimarySort(src.pk)]);
    ok := true;
    EntryMade(e');
  }

  /** A tracked table: a valid source and a valid confirmed tree. */
  ghost predicate EntryOk(e: Entry)
    reads e.source`indexes
  {
    Trees(e.source.pk, e.source.indexes) && BT.Ok(PkLt(e.source.pk), e.sync)
  }

  lemma EntryIs(e: Entry)
    requires EntryOk(e)
    ensures Trees(e.source.pk, e.source.indexes) && BT.Ok(PkLt(e.source.pk), e.sync)
  {
  }

  lemma EntryMade(e: Entry)
    requires Trees(e.source.pk, e.source.indexes) && BT.Ok(PkLt(e.source.pk), e.sync)
    ensures EntryOk(e)
  {
  }

  lemma PkLtIs(pk: seq<ColId>)
    ensures PkLt(pk) == SortLt(PrimarySort(pk))
  {
  }

  // ---- all tables ----

  type Tables = map<string, Entry>

  /** No two tables share a source. */
  ghost predicate Distinct(ts: Tables) {
    forall t, u :: t in ts && u in ts && t != u ==> ts[t].source != ts[u].source
  }

  ghost predicate AllOk(ts: Tables)
    reads set t | t in ts :: ts[t].source
  {
    forall t :: t in ts ==> EntryOk(ts[t])
  }

  /** Same tables over the same sources. */
  ghost predicate SameSources(ts: Tables, ts': Tables) {
    ts'.Keys == ts.Keys && forall t :: t in ts ==> ts'[t].source == ts[t].source
  }

  function DeltaFor(d: Deltas, t: string): seq<SourceChange> {
    if t in d then d[t] else []
  }

  /** Confirmed rows per table. */
  type Confirmed = map<string, seq<Row>>

  ghost predicate Mirrors(ts: Tables, c: Confirmed) {
    c.Keys == ts.Keys && forall t :: t in ts ==> BT.Contents(ts[t].sync) == c[t]
  }

  ghost predicate InStep(e: Entry)
    reads e.source`indexes
  {
    && PrimarySort(e.source.pk) in e.source.indexes
    && Primary(e.source.pk, e.source.indexes) == BT.Contents(e.sync)
  }

  /** Every live table holds exactly its confirmed rows. */
  ghost predicate Rewound(ts: Tables)
    reads set t | t in ts :: ts[t].source
  {
    forall t :: t in ts ==> InStep(ts[t])
  }

  type Keys = map<string, seq<ColId>>

  ghost function KeysOf(ts: Tables): Keys {
    map t | t in ts :: ts[t].source.pk
  }

  /** One server batch applied to the confirmed rows; a batch naming an unknown table is
      refused whole. */
  function Served(keys: Keys, c: Confirmed, d: Deltas): Confirmed {
    if d.Keys <= c.Keys && c.Keys <= keys.Keys then
      map t | t in c :: AppliedAll(PkLt(keys[t]), c[t], if t in d then d[t] else [])
    else c
  }

  datatype Op = Write(table: string, change: SourceChange) | Rewind(deltas: Deltas)

  /** What a run can depend on besides its operations: each table's primary key and split keys, and
      whether pushes are checked. */
  datatype Setting = Setting(keys: Keys, splits: Keys, strict: bool)

  ghost function SettingOf(ts: Tables, strict: bool): Setting
    reads (set t | t in ts :: ts[t].source)`splitKeys
  {
    Setting(KeysOf(ts), map t | t in ts :: ts[t].source.splitKeys, strict)
  }

  /** The live rows after a run: an accepted rewind leaves the confirmed rows, a write is pushed onto
      the rows that are there. */
  function Live(s: Setting, c: Confirmed, live: Confirmed, ops: seq<Op>): Confirmed {
    if ops == [] then live
    else
      var before := Live(s, c, live, ops[..|ops| - 1]);
      match ops[|ops| - 1]
      case Write(t, change) =>
        if t in before && t in s.keys && t in s.splits then
          before[t := Pushed(PkLt(s.keys[t]), before[t], s.splits[t], s.strict, change)]
        else before
      case Rewind(d) => if d.Keys <= c.Keys then Server(s.keys, c, ops) else before
  }

  ghost function RowsIn(e: Entry): seq<Row>
    reads e.source`indexes
  {
    if PrimarySort(e.source.pk) in e.source.indexes then Primary(e.source.pk, e.source.indexes) else []
  }

  /** The rows of every live table. */
  ghost function LiveRows(ts: Tables): Confirmed
    reads set t | t in ts :: ts[t].source
  {
    map t | t in ts :: RowsIn(ts[t])
  }

  /** The confirmed rows after a run: optimistic writes leave no trace in them. */
  function Server(keys: Keys, c: Confirmed, ops: seq<Op>): Confirmed {
    if ops == [] then c
    else
      var before := Server(keys, c, ops[..|ops| - 1]);
      var op := ops[|ops| - 1];
      if op.Rewind? then Served(keys, before, op.deltas) else before
  }

  class OptimisticTables {
    var tables: Tables

    constructor ()
      ensures tables == map[]
    {
      tables := map[];
    }

    /** `track`: the confirmed tree starts as a fork of the live primary; a source that is not in
        memory (`None`) is refused, unless the table is tracked already. */
    method Track(table: string, memory: Option<Source>) returns (ok: bool)
      requires Distinct(tables)
      requires memory.Some? ==> Trees(memory.value.pk, memory.value.indexes)
      requires memory.Some? ==> forall t :: t in tables ==> tables[t].source != memory.value
      modifies `tables
      ensures Distinct(tables) && (ok <==> table in old(tables) || memory.Some?)
      ensures table in old(tables) || memory.None? ==> tables == old(tables)
      ensures table !in old(tables) && memory.Some? ==>
        && table in tables && tables == old(tables)[table := tables[table]] && tables[table].source == memory.value
        && EntryOk(tables[table])
        && BT.Contents(tables[table].sync) == Primary(memory.value.pk, memory.value.indexes)
    {
      hide *;
      if table in tables { return true; }
      if memory.None? { return false; }
      var source := memory.value;
      TreesAt(source.pk, source.indexes, PrimarySort(source.pk));
      PrimaryIs(source.pk, source.indexes);
      PkLtIs(source.pk);
      var e := Entry(source, source.indexes[PrimarySort(source.pk)]);
      EntryMade(e);
      DistinctAdd(tables, table, e);
      tables := tables[table := e];
      ok := true;
    }

    /** `rewind`: refuse a batch for an untracked table, else rewind every table. */
    method DoRewind(deltas: Deltas, strict: bool) returns (ok: bool)
      requires Distinct(tables) && AllOk(tables)
      modifies `tables, (set t | t in tables :: tables[t].source)`indexes
      ensures Distinct(tables) && AllOk(tables) && SameSources(old(tables), tables)
      ensures ok <==> deltas.Keys <= old(tables.Keys)
      ensures !ok ==>
        tables == old(tables) && forall t :: t in tables ==> tables[t].source.indexes == old(tables[t].source.indexes)
      ensures !ok ==> LiveRows(tables) == old(LiveRows(tables))
      ensures ok ==> Rewound(tables)
      ensures ok ==> forall t :: t in tables ==>
        BT.Contents(tables[t].sync)
          == AppliedAll(PkLt(tables[t].source.pk), BT.Contents(old(tables[t]).sync), DeltaFor(deltas, t))
    {
      hide *;
      ok := deltas.Keys <= tables.Keys;
      ghost var before := tables;
      SourcesRefl(tables);
      AllOkAt(tables);
      if !ok { return; }
      var todo := tables.Keys;
      while todo != {}
        invariant todo <= before.Keys == tables.Keys && SameSources(before, tables) && Distinct(tables)
        invariant forall t :: t in before ==> tables[t].source == before[t].source
        invariant forall t :: t in todo ==> tables[t] == before[t] && EntryOk(tables[t])
        invariant forall t :: t in before && t !in todo ==> Settled(tables[t], before[t], DeltaFor(deltas, t))
        decreases |todo|
      {
        var t :| t in todo;
        Apart(tables, t);
        ghost var previous := tables;
        RewindOne(t, DeltaFor(deltas, t), strict);
        Replaced(before, previous, t, tables[t]);
        todo := todo - {t};
      }
      AllSettled(before, tables, deltas);
    }

    method RewindOne(t: string, delta: seq<SourceChange>, strict: bool)
      requires t in tables && EntryOk(tables[t])
      modifies `tables, tables[t].source`indexes
      ensures t in tables && tables == old(tables)[t := tables[t]] && tables[t].source == old(tables[t]).source
      ensures Settled(tables[t], old(tables[t]), delta)
    {
      hide *;
      var _, e, _ := RewindTable(tables[t], delta, strict);
      SettledMade(e, tables[t], delta);
      tables := tables[t := e];
    }

    /** One optimistic write to a live table, pushed through its source; the outcome, accepted or
        refused, never touches the confirmed tree. */
    method DoWrite(table: string, c: SourceChange, strict: bool) returns (ok: bool)
      requires Distinct(tables) && AllOk(tables)
      modifies (set t | t in tables :: tables[t].source)`indexes
      ensures AllOk(tables) && (ok ==> table in tables)
      ensures table !in tables ==> LiveRows(tables) == old(LiveRows(tables))
      ensures table in tables ==>
        var (src, rows) := (tables[table].source, old(RowsIn(tables[table])));
        && (ok <==> Admitted(PkLt(src.pk), rows, src.splitKeys, strict, c))
        && LiveRows(tables) == old(LiveRows(tables))[table := Pushed(PkLt(src.pk), rows, src.splitKeys, strict, c)]
    {
      hide *;
      AllOkAt(tables);
      ghost var before := LiveRows(tables);
      LiveIs(tables);
      if table !in tables { return false; }
      Apart(tables, table);
      EntryIs(tables[table]);
      PkLtIs(tables[table].source.pk);
      PrimarySorted(tables[table].source.pk, tables[table].source.indexes);
      RowsInIs(tables[table]);
      ok := tables[table].source.TryPush(c, strict);
      PrimarySorted(tables[table].source.pk, tables[table].source.indexes);
      RowsInIs(tables[table]);
      LiveIs(tables);
      EntryMade(tables[table]);
      AllOkMade(tables);
      assert LiveRows(tables) == before[table := RowsIn(tables[table])];
    }

    /** Where a run stands after `done`: the confirmed trees hold the initial rows with all server
        batches applied in order, the live tables what the last accepted rewind confirmed (or the
        initial rows) with the writes since pushed onto it in order. */
    ghost predicate Stands(s: Setting, c: Confirmed, live: Confirmed, done: seq<Op>)
      reads this, set t | t in tables :: tables[t].source
    {
      && Distinct(tables) && AllOk(tables) && s == SettingOf(tables, s.strict)
      && Mirrors(tables, Server(s.keys, c, done)) && LiveRows(tables) == Live(s, c, live, done)
    }

    method RunWrite(op: Op, ghost s: Setting, strict: bool, ghost c: Confirmed, ghost live: Confirmed,
        ghost done: seq<Op>)
      requires Stands(s, c, live, done) && op.Write? && strict == s.strict
      modifies (set t | t in tables :: tables[t].source)`indexes
      ensures Stands(s, c, live, done + [op])
    {
      hide *;
      StandsIs(this, s, c, live, done);
      SettingIs(tables, strict);
      ServerSnoc(s.keys, c, done, op);
      LiveSnoc(s, c, live, done, op);
      LiveIs(tables);
      var _ := DoWrite(op.table, op.change, strict);
      SettingSame(tables, s);
      StandsIs(this, s, c, live, done + [op]);
    }

    method RunRewind(op: Op, ghost s: Setting, strict: bool, ghost c: Confirmed, ghost live: Confirmed,
        ghost done: seq<Op>)
      requires Stands(s, c, live, done) && op.Rewind? && strict == s.strict
      modifies `tables, (set t | t in tables :: tables[t].source)`indexes
      ensures Stands(s, c, live, done + [op]) && SameSources(old(tables), tables)
      ensures op.deltas.Keys <= tables.Keys ==> Rewound(tables)
    {
      hide *;
      StandsIs(this, s, c, live, done);
      SettingIs(tables, strict);
      ghost var before := tables;
      var ok := DoRewind(op.deltas, strict);
      RewindServes(before, tables, s, c, live, done, op, ok);
      SettingMoves(before, tables, s);
      StandsIs(this, s, c, live, done + [op]);
    }

    /** Any run of optimistic writes and rewinds, legal or not, accepted or refused, leaves the
        confirmed and the live rows as `Stands` says; right after an accepted rewind they are the
        same. */
    method RunAll(ops: seq<Op>, strict: bool, ghost c: Confirmed)
      requires Distinct(tables) && AllOk(tables) && Mirrors(tables, c)
      modifies `tables, (set t | t in tables :: tables[t].source)`indexes
      ensures SameSources(old(tables), tables)
      ensures Stands(old(SettingOf(tables, strict)), c, old(LiveRows(tables)), ops)
      ensures ops != [] && ops[|ops| - 1].Rewind? && ops[|ops| - 1].deltas.Keys <= tables.Keys ==> Rewound(tables)
    {
      hide *;
      ghost var start := tables;
      ghost var (s, live) := (SettingOf(start, strict), LiveRows(start));
      var i := 0;
      SourcesRefl(start);
      StandsStart(this, strict, c);
      assert ops[..0] == [];
      while i < |ops|
        invariant i <= |ops| && SameSources(start, tables) && Stands(s, c, live, ops[..i])
        invariant tables.Keys == start.Keys && forall t :: t in tables ==> tables[t].source == start[t].source
        invariant i > 0 && ops[i - 1].Rewind? && ops[i - 1].deltas.Keys <= tables.Keys ==> Rewound(tables)
      {
        assert ops[..i + 1] == ops[..i] + [ops[i]];
        if ops[i].Write? {
          RunWrite(ops[i], s, strict, c, live, ops[..i]);
        } else {
          ghost var before := tables;
          RunRewind(ops[i], s, strict, c, live, ops[..i]);
          SourcesTrans(start, before, tables);
        }
        i := i + 1;
      }
      assert ops[..i] == ops;
    }
  }

  lemma StandsIs(o: OptimisticTables, s: Setting, c: Confirmed, live: Confirmed, done: seq<Op>)
    ensures o.Stands(s, c, live, done) <==>
      && Distinct(o.tables) && AllOk(o.tables) && s == SettingOf(o.tables, s.strict)
      && Mirrors(o.tables, Server(s.keys, c, done)) && LiveRows(o.tables) == Live(s, c, live, done)
  {
  }

  lemma StandsStart(o: OptimisticTables, strict: bool, c: Confirmed)
    requires Distinct(o.tables) && AllOk(o.tables) && Mirrors(o.tables, c)
    ensures SettingOf(o.tables, strict).strict == strict
    ensures o.Stands(SettingOf(o.tables, strict), c, LiveRows(o.tables), [])
  {
    hide *;
    var s := SettingOf(o.tables, strict);
    SettingIs(o.tables, strict);
    ServerNil(s.keys, c);
    LiveNil(s, c, LiveRows(o.tables));
    StandsIs(o, s, c, LiveRows(o.tables), []);
  }

  /** What a rewind, accepted or refused, does to the confirmed and the live rows. */
  lemma RewindServes(before: Tables, ts: Tables, s: Setting, c: Confirmed, live: Confirmed, done: seq<Op>, op: Op,
      ok: bool)
    requires op.Rewind? && s.keys == KeysOf(before) && SameSources(before, ts)
    requires Mirrors(before, Server(s.keys, c, done)) && (ok <==> op.deltas.Keys <= before.Keys)
    requires !ok ==> ts == before && LiveRows(ts) == Live(s, c, live, done)
    requires ok ==> Rewound(ts) && forall t :: t in ts ==>
      BT.Contents(ts[t].sync)
        == AppliedAll(PkLt(ts[t].source.pk), BT.Contents(before[t].sync), DeltaFor(op.deltas, t))
    ensures Mirrors(ts, Server(s.keys, c, done + [op])) && LiveRows(ts) == Live(s, c, live, done + [op])
    ensures op.deltas.Keys <= ts.Keys ==> Rewound(ts)
  {
    hide *;
    SourcesRefl(before);
    SourcesTrans(before, before, ts);
    SourceKeys(before, ts);
    ServerSnoc(s.keys, c, done, op);
    LiveSnoc(s, c, live, done, op);
    ServerKeys(s.keys, c, done);
    MirrorsKeys(before, Server(s.keys, c, done));
    MirrorsServed(before, before, ts, Server(s.keys, c, done), op.deltas, ok);
    if ok { RewoundLive(ts, Server(s.keys, c, done + [op])); }
  }

  lemma SourceKeys(a: Tables, b: Tables)
    requires SameSources(a, b)
    ensures a.Keys == b.Keys
  {
  }

  lemma SettingMoves(before: Tables, ts: Tables, s: Setting)
    requires SameSources(before, ts) && s == SettingOf(before, s.strict)
    ensures s == SettingOf(ts, s.strict)
  {
  }

  lemma SettingSame(ts: Tables, s: Setting)
    requires s.keys.Keys == s.splits.Keys == ts.Keys
    requires forall t :: t in ts ==> s.keys[t] == ts[t].source.pk && s.splits[t] == ts[t].source.splitKeys
    ensures s == SettingOf(ts, s.strict)
  {
  }

  lemma RowsInIs(e: Entry)
    requires PrimarySort(e.source.pk) in e.source.indexes
    ensures RowsIn(e) == Primary(e.source.pk, e.source.indexes)
  {
  }

  lemma LiveIs(ts: Tables)
    ensures LiveRows(ts).Keys == ts.Keys && forall t :: t in ts ==> LiveRows(ts)[t] == RowsIn(ts[t])
  {
  }

  lemma SettingIs(ts: Tables, strict: bool)
    ensures var s := SettingOf(ts, strict);
      && s.keys == KeysOf(ts) && s.strict == strict && s.keys.Keys == s.splits.Keys == ts.Keys
      && forall t :: t in ts ==> s.keys[t] == ts[t].source.pk && s.splits[t] == ts[t].source.splitKeys
  {
  }

  lemma LiveNil(s: Setting, c: Confirmed, live: Confirmed)
    ensures Live(s, c, live, []) == live
  {
  }

  lemma LiveSnoc(s: Setting, c: Confirmed, live: Confirmed, ops: seq<Op>, op: Op)
    ensures var before := Live(s, c, live, ops);
      && (op.Write? && op.table in before && op.table in s.keys && op.table in s.splits ==>
          Live(s, c, live, ops + [op]) == before[op.table :=
            Pushed(PkLt(s.keys[op.table]), before[op.table], s.splits[op.table], s.strict, op.change)])
      && (op.Write? && op.table !in before ==> Live(s, c, live, ops + [op]) == before)
      && (op.Rewind? ==>
          Live(s, c, live, ops + [op]) == if op.deltas.Keys <= c.Keys then Server(s.keys, c, ops + [op]) else before)
  {
    assert (ops + [op])[..|ops|] == ops;
  }

  lemma MirrorsKeys(ts: Tables, c: Confirmed)
    requires Mirrors(ts, c)
    ensures c.Keys == ts.Keys
  {
  }

  lemma {:induction false} ServerKeys(keys: Keys, c: Confirmed, ops: seq<Op>)
    ensures Server(keys, c, ops).Keys == c.Keys
  {
    if ops != [] { ServerKeys(keys, c, ops[..|ops| - 1]); }
  }

  lemma RewoundLive(ts: Tables, c: Confirmed)
    requires Rewound(ts) && Mirrors(ts, c)
    ensures LiveRows(ts) == c
  {
  }

  lemma AllOkAt(ts: Tables)
    requires AllOk(ts)
    ensures forall t :: t in ts ==> EntryOk(ts[t])
  {
  }

  lemma AllOkMade(ts: Tables)
    requires forall t :: t in ts ==> EntryOk(ts[t])
    ensures AllOk(ts)
  {
  }

  lemma SourcesTrans(a: Tables, b: Tables, c: Tables)
    requires SameSources(a, b) && SameSources(b, c)
    ensures SameSources(a, c) && forall t :: t in c ==> t in a && c[t].source == a[t].source
  {
  }

  lemma ServerNil(keys: Keys, c: Confirmed)
    ensures Server(keys, c, []) == c
  {
  }

  lemma ServerSnoc(keys: Keys, c: Confirmed, ops: seq<Op>, op: Op)
    ensures Server(keys, c, ops + [op]) ==
      if op.Rewind? then Served(keys, Server(keys, c, ops), op.deltas) else Server(keys, c, ops)
  {
    assert (ops + [op])[..|ops|] == ops;
  }

  lemma {:induction false} MirrorsServed(start: Tables, before: Tables, after: Tables, c: Confirmed, d: Deltas,
      ok: bool)
    requires Mirrors(before, c) && SameSources(start, before) && SameSources(before, after)
    requires ok <==> d.Keys <= before.Keys
    requires !ok ==> after == before
    requires ok ==> forall t :: t in after ==>
      BT.Contents(after[t].sync) == AppliedAll(PkLt(after[t].source.pk), BT.Contents(before[t].sync), DeltaFor(d, t))
    ensures Mirrors(after, Served(KeysOf(start), c, d))
  {
    hide AppliedAll;
    hide BT.Contents;
    hide PkLt;
    var keys := KeysOf(start);
    assert keys.Keys == start.Keys;
  }

  lemma SourcesRefl(ts: Tables)
    ensures SameSources(ts, ts)
  {
  }

  lemma Apart(ts: Tables, t: string)
    requires Distinct(ts) && t in ts
    ensures forall u :: u in ts && u != t ==> ts[u].source != ts[t].source
  {
  }

  lemma Replaced(before: Tables, ts: Tables, t: string, e: Entry)
    requires SameSources(before, ts) && Distinct(ts) && t in ts && e.source == ts[t].source
    ensures SameSources(before, ts[t := e]) && Distinct(ts[t := e])
  {
  }

  lemma SettledMade(e: Entry, before: Entry, ds: seq<SourceChange>)
    requires EntryOk(e) && e.source == before.source
    requires Primary(e.source.pk, e.source.indexes) == BT.Contents(e.sync)
    requires BT.Contents(e.sync) == AppliedAll(PkLt(e.source.pk), BT.Contents(before.sync), ds)
    ensures Settled(e, before, ds)
  {
  }

  lemma AllSettled(before: Tables, ts: Tables, d: Deltas)
    requires before.Keys == ts.Keys && forall t :: t in before ==> Settled(ts[t], before[t], DeltaFor(d, t))
    ensures AllOk(ts) && Rewound(ts)
    ensures forall t :: t in ts ==>
      BT.Contents(ts[t].sync) == AppliedAll(PkLt(ts[t].source.pk), BT.Contents(before[t].sync), DeltaFor(d, t))
  {
    hide BT.Contents;
    hide AppliedAll;
    hide BT.Ok;
    hide DeltaFor;
  }

  ghost predicate Settled(e: Entry, before: Entry, ds: seq<SourceChange>)
    reads e.source`indexes
  {
    && e.source == before.source && EntryOk(e)
    && Primary(e.source.pk, e.source.indexes) == BT.Contents(e.sync)
    && BT.Contents(e.sync) == AppliedAll(PkLt(e.source.pk), BT.Contents(before.sync), ds)
  }

  lemma DistinctAdd(ts: Tables, table: string, e: Entry)
    requires Distinct(ts) && forall t :: t in ts ==> ts[t].source != e.source
    ensures Distinct(ts[table := e])
  {
  }
}
