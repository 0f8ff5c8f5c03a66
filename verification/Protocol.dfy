/** The subscription protocol of rust/src/flat_protocol.rs: a publisher that numbers what it
    sends, and a subscriber that folds only the exact continuation of what it has. */
module Protocol {
  import opened Values
  import R = Receiver
  import J = Join

  type Events = seq<R.FlatChange>

  datatype Frame =
    | Batch(epoch: nat, seq_: nat, fp: nat, events: Events)
    | SnapshotChunk(epoch: nat, fp: nat, index: nat, last: bool, adds: Events)

  datatype Hello = Hello(epoch: nat, comparatorVersion: nat, schema: R.Schema, fp: nat)

  datatype ProtocolError =
    | ComparatorMismatch(expectedVersion: nat, gotVersion: nat)
    | EpochMismatch(expectedEpoch: nat, gotEpoch: nat)
    | SchemaMismatch(expectedFp: nat, gotFp: nat)
    | Gap(expectedSeq: nat, gotSeq: nat)

  datatype Outcome = Advanced | Complete | Duplicate | Refused(error: ProtocolError) | Panicked

  const COMPARATOR_VERSION: nat := 2

  /** The sender's lifecycle as it appears on the wire: a baseline, in one batch or in pages, and
      the committed transactions after it. */
  datatype Log = Log(single: bool, pages: seq<Events>, commits: seq<Events>)

  const NOTHING := Log(false, [], [])

  function Concat(ess: seq<Events>): Events {
    if ess == [] then [] else Concat(ess[..|ess| - 1]) + ess[|ess| - 1]
  }

  lemma {:induction false} ConcatSnoc(ess: seq<Events>, es: Events)
    ensures Concat(ess + [es]) == Concat(ess) + es
  {
    assert (ess + [es])[..|ess|] == ess;
  }

  /** The events of the first `a` pages and `b` transactions. */
  function Prefix(log: Log, a: nat, b: nat): Events
    requires a <= |log.pages| && b <= |log.commits|
  {
    Concat(log.pages[..a]) + Concat(log.commits[..b])
  }

  function AllEvents(log: Log): Events {
    Prefix(log, |log.pages|, |log.commits|)
  }

  /** The frames a publisher with this log has put on the wire. */
  predicate FrameOf(epoch: nat, fp: nat, log: Log, f: Frame) {
    && f.epoch == epoch && f.fp == fp
    && match f
       case Batch(_, s, _, events) =>
         || (s == 0 && log.single && |log.pages| == 1 && events == log.pages[0])
         || (1 <= s <= |log.commits| && log.pages != [] && events == log.commits[s - 1])
       case SnapshotChunk(_, _, i, last, adds) =>
         !log.single && i < |log.pages| && adds == log.pages[i] && last == (i + 1 == |log.pages|)
  }

  // ---- paging ----

  function Pages(events: Events, max: nat): seq<Events>
    requires max >= 1
    decreases |events|
  {
    if |events| <= max then [events] else [events[..max]] + Pages(events[max..], max)
  }

  /** Paging keeps every event in order, whatever the page size; every page but the last is full,
      and the last is empty only when there is nothing to send. */
  lemma {:induction false} PagesKeep(events: Events, max: nat)
    requires max >= 1
    ensures Concat(Pages(events, max)) == events && Pages(events, max) != []
    ensures forall i :: 0 <= i < |Pages(events, max)| - 1 ==> |Pages(events, max)[i]| == max
    ensures |Pages(events, max)[|Pages(events, max)| - 1]| <= max
    ensures Pages(events, max)[|Pages(events, max)| - 1] == [] ==> events == []
    decreases |events|
  {
    if |events| <= max {
      assert [events][..0] == [];
    } else {
      PagesKeep(events[max..], max);
      ConcatCons(events[..max], Pages(events[max..], max));
      assert events == events[..max] + events[max..];
    }
  }

  lemma {:induction false} ConcatCons(es: Events, ess: seq<Events>)
    ensures Concat([es] + ess) == es + Concat(ess)
  {
    if ess == [] {
      assert [es] + ess == [es] && [es][..0] == [];
    } else {
      var front := ess[..|ess| - 1];
      ConcatCons(es, front);
      assert ([es] + ess)[..|ess|] == [es] + front;
      assert es + (Concat(front) + ess[|ess| - 1]) == es + Concat(front) + ess[|ess| - 1];
    }
  }

  // ---- the publisher ----

  class Publisher {
    const epoch: nat
    const fp: nat
    const schema: R.Schema
    var nextSeq: nat
    ghost var log: Log

    constructor (epoch: nat, schema: R.Schema, fpOf: R.Schema -> nat)
      ensures this.epoch == epoch && this.schema == schema && fp == fpOf(schema) && log == NOTHING
      ensures Numbered(nextSeq, log)
    {
      this.epoch, this.schema, fp, nextSeq, log := epoch, schema, fpOf(schema), 0, NOTHING;
    }

    method SayHello() returns (h: Hello)
      ensures h == Hello(epoch, 2, schema, fp)
    {
      h := Hello(epoch, COMPARATOR_VERSION, schema, fp);
    }

    /** `snapshot`: the whole baseline in one batch, even when empty. */
    method Snapshot(caught: seq<R.CaughtChange>) returns (f: Frame)
      requires Numbered(nextSeq, log) && log == NOTHING
      modifies this
      ensures Numbered(nextSeq, log) && log == Log(true, [J.FlatAll(caught)], [])
      ensures forall g :: FrameOf(epoch, fp, log, g) <==> g == f
    {
      log := Log(true, [J.FlatAll(caught)], []);
      f := Emit(caught);
    }

    /** `snapshot_chunks`: the baseline in pages of at most `max`, the last one marked. */
    method SnapshotChunks(caught: seq<R.CaughtChange>, max: nat) returns (fs: seq<Frame>)
      requires Numbered(nextSeq, log) && log == NOTHING && max >= 1
      modifies this
      ensures Numbered(nextSeq, log) && log == Log(false, Pages(J.FlatAll(caught), max), [])
      ensures |fs| == |log.pages| && forall g :: FrameOf(epoch, fp, log, g) <==> g in fs
    {
      nextSeq := 1;
      var pages := Pages(J.FlatAll(caught), max);
      PagesKeep(J.FlatAll(caught), max);
      log := Log(false, pages, []);
      fs := seq(|pages|, i requires 0 <= i < |pages| => SnapshotChunk(epoch, fp, i, i + 1 == |pages|, pages[i]));
      forall g | FrameOf(epoch, fp, log, g) ensures g in fs { assert g == fs[g.index]; }
    }

    /** `commit`: an empty transaction sends nothing and uses no number. */
    method Commit(caught: seq<R.CaughtChange>) returns (f: Option<Frame>)
      requires Numbered(nextSeq, log) && log.pages != []
      modifies this
      ensures Numbered(nextSeq, log)
      ensures caught == [] ==> f == None && log == old(log) && nextSeq == old(nextSeq)
      ensures caught != [] ==> f.Some? && log == old(log).(commits := old(log).commits + [J.FlatAll(caught)])
      ensures caught != [] ==>
        forall g :: FrameOf(epoch, fp, log, g) <==> FrameOf(epoch, fp, old(log), g) || g == f.value
    {
      if caught == [] { return None; }
      log := log.(commits := log.commits + [J.FlatAll(caught)]);
      var b := Emit(caught);
      f := Some(b);
    }

    method Emit(caught: seq<R.CaughtChange>) returns (f: Frame)
      modifies `nextSeq
      ensures nextSeq == old(nextSeq) + 1 && f == Batch(epoch, old(nextSeq), fp, J.FlatAll(caught))
    {
      var s := nextSeq;
      nextSeq := nextSeq + 1;
      f := Batch(epoch, s, fp, J.FlatAll(caught));
    }
  }

  /** Sequence numbers are gap-free over what was sent. */
  ghost predicate Numbered(nextSeq: nat, log: Log) {
    if log.pages == [] then nextSeq == 0 && log == NOTHING
    else nextSeq == 1 + |log.commits| && (log.single ==> |log.pages| == 1)
  }

  // ---- the subscriber ----

  datatype Phase = Snapshotting(nextChunk: nat) | Live(lastSeq: nat)

  function Fold(schema: R.Schema, es: Events): Option<R.List> {
    R.ApplyAll([], schema, es)
  }

  /** The subscriber has folded exactly this prefix of the log. */
  ghost predicate At(schema: R.Schema, log: Log, phase: Phase, top: R.List) {
    match phase
    case Snapshotting(n) =>
      n <= |log.pages| && (n > 0 ==> !log.single && n < |log.pages|)
      && Fold(schema, Prefix(log, n, 0)) == Some(top)
    case Live(s) => log.pages != [] && s <= |log.commits| && Fold(schema, Prefix(log, |log.pages|, s)) == Some(top)
  }

  /** No prefix of the stream makes the receiver panic. */
  ghost predicate Sound(schema: R.Schema, log: Log) {
    Fold(schema, AllEvents(log)).Some?
  }

  /** Whatever folds, folds on every prefix. */
  lemma {:induction false} SoundPrefix(schema: R.Schema, es: Events, more: Events)
    requires Fold(schema, es + more).Some?
    ensures Fold(schema, es).Some? && Fold(schema, es + more) == R.ApplyAll(Fold(schema, es).value, schema, more)
  {
    hide R.ApplyAll;
    R.AllConcat([], schema, es, more);
  }

  lemma {:induction false} PrefixStep(log: Log, a: nat, b: nat)
    requires a <= |log.pages| && b <= |log.commits|
    ensures b < |log.commits| ==> Prefix(log, a, b + 1) == Prefix(log, a, b) + log.commits[b]
    ensures a < |log.pages| ==> Prefix(log, a + 1, 0) == Prefix(log, a, 0) + log.pages[a]
  {
    if b < |log.commits| {
      assert log.commits[..b + 1] == log.commits[..b] + [log.commits[b]];
      ConcatSnoc(log.commits[..b], log.commits[b]);
    }
    if a < |log.pages| {
      assert log.pages[..a + 1] == log.pages[..a] + [log.pages[a]];
      ConcatSnoc(log.pages[..a], log.pages[a]);
    }
  }

  lemma {:induction false} CommitsPrefix(log: Log, b: nat)
    requires b <= |log.commits|
    ensures exists more :: AllEvents(log) == Prefix(log, |log.pages|, b) + more
    decreases |log.commits| - b
  {
    if b == |log.commits| {
      assert AllEvents(log) == Prefix(log, |log.pages|, b) + [];
    } else {
      CommitsPrefix(log, b + 1);
      PrefixStep(log, |log.pages|, b);
      var more :| AllEvents(log) == Prefix(log, |log.pages|, b + 1) + more;
      assert AllEvents(log) == Prefix(log, |log.pages|, b) + (log.commits[b] + more);
    }
  }

  lemma {:induction false} PagesPrefix(log: Log, a: nat)
    requires a <= |log.pages|
    ensures exists more :: AllEvents(log) == Prefix(log, a, 0) + more
    decreases |log.pages| - a
  {
    if a == |log.pages| {
      CommitsPrefix(log, 0);
    } else {
      PagesPrefix(log, a + 1);
      PrefixStep(log, a, 0);
      var more :| AllEvents(log) == Prefix(log, a + 1, 0) + more;
      assert AllEvents(log) == Prefix(log, a, 0) + (log.pages[a] + more);
    }
  }

  /** A sound stream folds at every point the subscriber can reach. */
  lemma {:induction false} SoundAt(schema: R.Schema, log: Log, a: nat, b: nat)
    requires Sound(schema, log) && a <= |log.pages| && b <= |log.commits| && (b > 0 ==> a == |log.pages|)
    ensures Fold(schema, Prefix(log, a, b)).Some?
  {
    hide R.ApplyAll;
    if b > 0 { CommitsPrefix(log, b); } else { PagesPrefix(log, a); }
    var more :| AllEvents(log) == Prefix(log, a, b) + more;
    SoundPrefix(schema, Prefix(log, a, b), more);
  }

  /** How many frames of the log a phase has folded. */
  function Steps(log: Log, phase: Phase): nat {
    match phase case Snapshotting(n) => n case Live(s) => |log.pages| + s
  }

  /** The place of a frame in its publisher's stream: the baseline first, then the commits. */
  function Pos(log: Log, f: Frame): int {
    match f
    case SnapshotChunk(_, _, i, _, _) => i
    case Batch(_, s, _, _) => if s == 0 then 0 else |log.pages| + s - 1
  }

  predicate Own(epoch: nat, fp: nat, f: Frame) {
    f.epoch == epoch && f.fp == fp
  }

  /** The exact outcome of a frame for a subscriber that has folded the first `n` of its log. */
  ghost predicate Judged(epoch: nat, fp: nat, log: Log, n: nat, f: Frame, o: Outcome) {
    && (f.epoch != epoch <==> o == Refused(EpochMismatch(epoch, f.epoch)))
    && (f.epoch == epoch && f.fp != fp <==> o == Refused(SchemaMismatch(fp, f.fp)))
    && (Own(epoch, fp, f) && Pos(log, f) == n <==> o.Advanced? || o.Complete?)
    && (Own(epoch, fp, f) && Pos(log, f) == n && n + 1 == |log.pages| <==> o.Complete?)
    && (Own(epoch, fp, f) && Pos(log, f) < n <==> o.Duplicate?)
    && (Own(epoch, fp, f) && Pos(log, f) > n <==> o == Refused(GapAt(log, n, f)))
  }

  /** The gap a frame too far ahead reports: the number wanted and the number seen. */
  function GapAt(log: Log, n: nat, f: Frame): ProtocolError {
    match f
    case SnapshotChunk(_, _, i, _, _) => Gap(n, i)
    case Batch(_, s, _, _) => Gap(if n < |log.pages| then 0 else n - |log.pages| + 1, s)
  }

  class Subscriber {
    const epoch: nat
    const fp: nat
    const recv: R.Receiver
    var phase: Phase

    constructor (hello: Hello)
      ensures epoch == hello.epoch && fp == hello.fp && fresh(recv) && recv.schema == hello.schema
      ensures recv.top == [] && phase == Snapshotting(0)
    {
      epoch, fp, phase := hello.epoch, hello.fp, Snapshotting(0);
      recv := new R.Receiver(hello.schema);
    }

    /** `check_frame` */
    method CheckFrame(f: Frame) returns (e: Option<ProtocolError>)
      ensures e.None? <==> Own(epoch, fp, f)
      ensures f.epoch != epoch ==> e == Some(EpochMismatch(epoch, f.epoch))
      ensures f.epoch == epoch && f.fp != fp ==> e == Some(SchemaMismatch(fp, f.fp))
    {
      if f.epoch != epoch { return Some(EpochMismatch(epoch, f.epoch)); }
      if f.fp != fp { return Some(SchemaMismatch(fp, f.fp)); }
      e := None;
    }

    /** `apply_snapshot_chunk`: folds exactly the next frame, and says exactly what any other
        frame is. */
    method ApplySnapshotChunk(f: Frame, ghost log: Log) returns (o: Outcome)
      requires f.SnapshotChunk? && At(recv.schema, log, phase, recv.top) && Sound(recv.schema, log)
      requires Own(epoch, fp, f) ==> FrameOf(epoch, fp, log, f)
      modifies this, recv
      ensures At(recv.schema, log, phase, recv.top) && !o.Panicked?
      ensures Judged(epoch, fp, log, old(Steps(log, phase)), f, o)
      ensures o.Advanced? || o.Complete? ==> Steps(log, phase) == old(Steps(log, phase)) + 1
      ensures o.Duplicate? || o.Refused? ==> phase == old(phase) && recv.top == old(recv.top)
      ensures o.Complete? ==> phase == Live(0)
    {
      hide At;
      hide Sound;
      hide FrameOf;
      hide R.ApplyAll;
      var e := CheckFrame(f);
      if e.Some? { return Refused(e.value); }
      FrameIn(recv.schema, epoch, fp, log, f, phase, recv.top);
      match phase {
        case Live(_) => return Duplicate;
        case Snapshotting(n) =>
          if f.index < n { return Duplicate; }
          if f.index > n { return Refused(Gap(n, f.index)); }
          ChunkNext(recv.schema, epoch, fp, log, f, recv.top);
          var ok, _ := recv.FoldAll(f.adds);
          if !ok { return Panicked; }
          if f.last {
            phase := Live(0);
            o := Complete;
          } else {
            phase := Snapshotting(n + 1);
            o := Advanced;
          }
      }
    }

    /** `apply`: the same for batches. */
    method Apply(f: Frame, ghost log: Log) returns (o: Outcome)
      requires f.Batch? && At(recv.schema, log, phase, recv.top) && Sound(recv.schema, log)
      requires Own(epoch, fp, f) ==> FrameOf(epoch, fp, log, f)
      modifies this, recv
      ensures At(recv.schema, log, phase, recv.top) && !o.Panicked?
      ensures Judged(epoch, fp, log, old(Steps(log, phase)), f, o)
      ensures o.Advanced? || o.Complete? ==> Steps(log, phase) == old(Steps(log, phase)) + 1
      ensures o.Duplicate? || o.Refused? ==> phase == old(phase) && recv.top == old(recv.top)
      ensures o.Complete? ==> phase == Live(0)
    {
      hide At;
      hide Sound;
      hide FrameOf;
      hide R.ApplyAll;
      var e := CheckFrame(f);
      if e.Some? { return Refused(e.value); }
      FrameIn(recv.schema, epoch, fp, log, f, phase, recv.top);
      match phase {
        case Snapshotting(n) =>
          if n == 0 && f.seq_ == 0 {
            BaselineNext(recv.schema, epoch, fp, log, f, recv.top);
            var ok, _ := recv.FoldAll(f.events);
            if !ok { return Panicked; }
            phase := Live(0);
            o := Complete;
          } else {
            o := Refused(Gap(0, f.seq_));
          }
        case Live(s) =>
          var expected := s + 1;
          if f.seq_ < expected { return Duplicate; }
          if f.seq_ > expected { return Refused(Gap(expected, f.seq_)); }
          BatchNext(recv.schema, epoch, fp, log, f, s, recv.top);
          var ok, _ := recv.FoldAll(f.events);
          if !ok { return Panicked; }
          phase := Live(f.seq_);
          o := Advanced;
      }
    }

    /** Hand a frame to the entry point for its kind. */
    method Receive(f: Frame, ghost log: Log) returns (o: Outcome)
      requires At(recv.schema, log, phase, recv.top) && Sound(recv.schema, log)
      requires Own(epoch, fp, f) ==> FrameOf(epoch, fp, log, f)
      modifies this, recv
      ensures At(recv.schema, log, phase, recv.top) && !o.Panicked?
      ensures Judged(epoch, fp, log, old(Steps(log, phase)), f, o)
      ensures o.Advanced? || o.Complete? ==> Steps(log, phase) == old(Steps(log, phase)) + 1
      ensures o.Duplicate? || o.Refused? ==> phase == old(phase) && recv.top == old(recv.top)
    {
      hide *;
      if f.Batch? { o := Apply(f, log); } else { o := ApplySnapshotChunk(f, log); }
    }
  }

  /** Where a sent frame and a phase can stand. */
  lemma FrameIn(schema: R.Schema, epoch: nat, fp: nat, log: Log, f: Frame, phase: Phase, top: R.List)
    requires FrameOf(epoch, fp, log, f) && At(schema, log, phase, top)
    ensures log.pages != [] && (f.SnapshotChunk? ==> f.index < |log.pages| && f.last == (f.index + 1 == |log.pages|))
    ensures f.Batch? && f.seq_ == 0 ==> |log.pages| == 1
    ensures phase.Snapshotting? ==> phase.nextChunk < |log.pages|
    ensures phase.Snapshotting? && phase.nextChunk > 0 ==> |log.pages| > 1
  {
  }

  lemma {:induction false} ChunkNext(schema: R.Schema, epoch: nat, fp: nat, log: Log, f: Frame, top: R.List)
    requires f.SnapshotChunk? && FrameOf(epoch, fp, log, f) && At(schema, log, Snapshotting(f.index), top)
    requires Sound(schema, log)
    ensures var r := R.ApplyAll(top, schema, f.adds);
      && r.Some? && At(schema, log, if f.last then Live(0) else Snapshotting(f.index + 1), r.value)
      && Steps(log, if f.last then Live(0) else Snapshotting(f.index + 1)) == Steps(log, Snapshotting(f.index)) + 1
  {
    hide R.ApplyAll;
    hide Concat;
    PrefixStep(log, f.index, 0);
    SoundAt(schema, log, f.index + 1, 0);
    SoundPrefix(schema, Prefix(log, f.index, 0), f.adds);
  }

  lemma {:induction false} BaselineNext(schema: R.Schema, epoch: nat, fp: nat, log: Log, f: Frame, top: R.List)
    requires f.Batch? && f.seq_ == 0 && FrameOf(epoch, fp, log, f) && At(schema, log, Snapshotting(0), top)
    requires Sound(schema, log)
    ensures var r := R.ApplyAll(top, schema, f.events);
      r.Some? && At(schema, log, Live(0), r.value) && Steps(log, Live(0)) == Steps(log, Snapshotting(0)) + 1
  {
    hide R.ApplyAll;
    hide Concat;
    PrefixStep(log, 0, 0);
    SoundAt(schema, log, 1, 0);
    SoundPrefix(schema, Prefix(log, 0, 0), f.events);
  }

  lemma {:induction false} BatchNext(schema: R.Schema, epoch: nat, fp: nat, log: Log, f: Frame, s: nat, top: R.List)
    requires f.Batch? && f.seq_ == s + 1 && FrameOf(epoch, fp, log, f) && At(schema, log, Live(s), top)
    requires Sound(schema, log)
    ensures var r := R.ApplyAll(top, schema, f.events);
      r.Some? && At(schema, log, Live(s + 1), r.value) && Steps(log, Live(s + 1)) == Steps(log, Live(s)) + 1
  {
    hide R.ApplyAll;
    hide Concat;
    PrefixStep(log, |log.pages|, s);
    SoundAt(schema, log, |log.pages|, s + 1);
    SoundPrefix(schema, Prefix(log, |log.pages|, s), f.events);
  }

  /** `open`: refuse another comparator contract or a fingerprint that is not the schema's. */
  method Open(hello: Hello, fpOf: R.Schema -> nat) returns (s: Option<Subscriber>, e: Option<ProtocolError>)
    ensures s.Some? <==> hello.comparatorVersion == 2 && fpOf(hello.schema) == hello.fp
    ensures s.Some? <==> e.None?
    ensures hello.comparatorVersion != 2 <==> e == Some(ComparatorMismatch(2, hello.comparatorVersion))
    ensures hello.comparatorVersion == 2 && fpOf(hello.schema) != hello.fp <==>
      e == Some(SchemaMismatch(hello.fp, fpOf(hello.schema)))
    ensures s.Some? ==> fresh(s.value) && fresh(s.value.recv) && s.value.epoch == hello.epoch && s.value.fp == hello.fp
    ensures s.Some? ==>
      s.value.recv.schema == hello.schema && s.value.recv.top == [] && s.value.phase == Snapshotting(0)
  {
    if hello.comparatorVersion != COMPARATOR_VERSION {
      return None, Some(ComparatorMismatch(COMPARATOR_VERSION, hello.comparatorVersion));
    }
    if fpOf(hello.schema) != hello.fp {
      return None, Some(SchemaMismatch(hello.fp, fpOf(hello.schema)));
    }
    var sub := new Subscriber(hello);
    s, e := Some(sub), None;
  }

  // ---- every schedule ----

  datatype Action =
    | Baseline(caught: seq<R.CaughtChange>, page: Option<nat>)
    | Transact(caught: seq<R.CaughtChange>)
    | Deliver(frame: Frame)

  /** One baseline call, before any transaction; pages hold at least one entry. */
  predicate Allowed(log: Log, a: Action) {
    match a
    case Baseline(_, page) => log.pages == [] && (page.Some? ==> page.value >= 1)
    case Transact(_) => log.pages != []
    case Deliver(_) => true
  }

  function Logged(log: Log, a: Action): Log
    requires Allowed(log, a)
  {
    match a
    case Baseline(caught, page) =>
      if page.None? then Log(true, [J.FlatAll(caught)], []) else Log(false, Pages(J.FlatAll(caught), page.value), [])
    case Transact(caught) => if caught == [] then log else log.(commits := log.commits + [J.FlatAll(caught)])
    case Deliver(_) => log
  }

  /** The publisher's log after a schedule, if it was used as it must be. */
  function LogAfter(schedule: seq<Action>): Option<Log> {
    if schedule == [] then Some(NOTHING)
    else
      var before := LogAfter(schedule[..|schedule| - 1]);
      var a := schedule[|schedule| - 1];
      if before.Some? && Allowed(before.value, a) then Some(Logged(before.value, a)) else None
  }

  /** A log only grows. */
  ghost predicate Grows(log: Log, log': Log) {
    && (log.pages != [] ==> log'.pages == log.pages && log'.single == log.single)
    && log.commits <= log'.commits && (log.pages == [] ==> log.commits == [])
  }

  lemma {:induction false} LoggedGrows(log: Log, a: Action)
    requires Allowed(log, a) && (log.pages == [] ==> log == NOTHING)
    ensures Grows(log, Logged(log, a)) && (Logged(log, a).pages == [] ==> Logged(log, a) == NOTHING)
  {
    if a.Baseline? && a.page.Some? { PagesKeep(J.FlatAll(a.caught), a.page.value); }
  }

  /** Frames on the wire stay frames of the log, and the subscriber stays where it is. */
  lemma {:induction false} GrowthKeeps(schema: R.Schema, epoch: nat, fp: nat, log: Log, log': Log, phase: Phase,
      top: R.List)
    requires Grows(log, log') && At(schema, log, phase, top)
    ensures At(schema, log', phase, top)
    ensures forall f :: FrameOf(epoch, fp, log, f) ==> FrameOf(epoch, fp, log', f)
  {
    hide Fold;
    if phase.Live? {
      assert log'.commits[..phase.lastSeq] == log.commits[..phase.lastSeq];
    } else if phase.nextChunk == 0 {
      assert log.pages[..0] == log'.pages[..0] && log.commits[..0] == log'.commits[..0];
    }
    assert forall s :: 0 <= s < |log.commits| ==> log'.commits[s] == log.commits[s];
  }

  /** A log that ends sound was sound all along. */
  lemma {:induction false} SoundBefore(schema: R.Schema, log: Log, log': Log)
    requires Grows(log, log') && Sound(schema, log')
    ensures Sound(schema, log)
  {
    hide Fold;
    if log.pages == [] {
      SoundAt(schema, log', 0, 0);
      assert log'.pages[..0] == [] && log'.commits[..0] == [] && log.pages[..0] == [] && log.commits[..0] == [];
      assert Prefix(log', 0, 0) == AllEvents(log);
    } else {
      SoundAt(schema, log', |log'.pages|, |log.commits|);
      assert log'.commits[..|log.commits|] == log.commits[..|log.commits|] == log.commits;
    }
  }

  // ---- what a schedule hands over ----

  /** The frames a network delivers: own frames only once they were sent, foreign ones at will. */
  function Handed(epoch: nat, fp: nat, schedule: seq<Action>): seq<Frame> {
    if schedule == [] then []
    else
      var (front, a) := (schedule[..|schedule| - 1], schedule[|schedule| - 1]);
      Handed(epoch, fp, front)
      + if a.Deliver? && (!Own(epoch, fp, a.frame) || Sent(epoch, fp, front, a.frame)) then [a.frame] else []
  }

  predicate Sent(epoch: nat, fp: nat, schedule: seq<Action>, f: Frame) {
    LogAfter(schedule).Some? && FrameOf(epoch, fp, LogAfter(schedule).value, f)
  }

  /** How many frames are folded if each one is folded exactly when it is the next. */
  function Reached(epoch: nat, fp: nat, log: Log, frames: seq<Frame>): nat {
    if frames == [] then 0
    else
      var (n, f) := (Reached(epoch, fp, log, frames[..|frames| - 1]), frames[|frames| - 1]);
      if Own(epoch, fp, f) && Pos(log, f) == n then n + 1 else n
  }

  lemma ReachedSnoc(epoch: nat, fp: nat, log: Log, frames: seq<Frame>, f: Frame)
    ensures Reached(epoch, fp, log, []) == 0
    ensures var n := Reached(epoch, fp, log, frames);
      Reached(epoch, fp, log, frames + [f]) == if Own(epoch, fp, f) && Pos(log, f) == n then n + 1 else n
  {
    assert (frames + [f])[..|frames|] == frames;
  }

  /** Own frames in the list were sent. */
  ghost predicate Genuine(epoch: nat, fp: nat, log: Log, frames: seq<Frame>) {
    forall f :: f in frames && Own(epoch, fp, f) ==> FrameOf(epoch, fp, log, f)
  }

  lemma {:induction false} ReachedGrows(epoch: nat, fp: nat, log: Log, log': Log, frames: seq<Frame>)
    requires Grows(log, log') && Genuine(epoch, fp, log, frames)
    ensures Reached(epoch, fp, log', frames) == Reached(epoch, fp, log, frames)
    decreases |frames|
  {
    if frames != [] {
      var (front, f) := (frames[..|frames| - 1], frames[|frames| - 1]);
      assert forall g :: g in front ==> g in frames;
      ReachedGrows(epoch, fp, log, log', front);
      assert f in frames;
    }
  }

  /** Any network: frames of the subscriber's own epoch and fingerprint are those its publisher
      sent, delivered late, early, twice or never; other frames are arbitrary.  After every
      schedule the subscriber has folded exactly the frames that came when they were next, its
      tree is the fold of that prefix of its own epoch's events, and a sound stream never
      panics. */
  method RunAll(schedule: seq<Action>, pub: Publisher, sub: Subscriber) returns (outcomes: seq<Outcome>)
    requires pub.log == NOTHING && Numbered(pub.nextSeq, pub.log)
    requires sub.epoch == pub.epoch && sub.fp == pub.fp && sub.recv.schema == pub.schema
    requires sub.phase == Snapshotting(0) && sub.recv.top == []
    requires LogAfter(schedule).Some? && Sound(pub.schema, LogAfter(schedule).value)
    modifies pub, sub, sub.recv
    ensures LogAfter(schedule) == Some(pub.log) && Numbered(pub.nextSeq, pub.log)
    ensures At(pub.schema, pub.log, sub.phase, sub.recv.top)
    ensures Steps(pub.log, sub.phase) == Reached(pub.epoch, pub.fp, pub.log, Handed(pub.epoch, pub.fp, schedule))
    ensures forall o :: o in outcomes ==> !o.Panicked?
  {
    hide *;
    outcomes := [];
    var sent: set<Frame> := {};
    var i := 0;
    StartsAt(pub.schema, pub.epoch, pub.fp);
    assert schedule[..0] == [];
    while i < |schedule|
      invariant i <= |schedule| && LogAfter(schedule[..i]) == Some(pub.log) && Numbered(pub.nextSeq, pub.log)
      invariant At(pub.schema, pub.log, sub.phase, sub.recv.top)
      invariant forall f :: f in sent <==> FrameOf(pub.epoch, pub.fp, pub.log, f)
      invariant Genuine(pub.epoch, pub.fp, pub.log, Handed(pub.epoch, pub.fp, schedule[..i]))
      invariant Steps(pub.log, sub.phase)
        == Reached(pub.epoch, pub.fp, pub.log, Handed(pub.epoch, pub.fp, schedule[..i]))
      invariant forall o :: o in outcomes ==> !o.Panicked?
    {
      var a := schedule[i];
      ghost var (before, handed) := (pub.log, Handed(pub.epoch, pub.fp, schedule[..i]));
      StepLog(pub.schema, schedule, i, pub.nextSeq, before);
      HandedStep(pub.epoch, pub.fp, schedule, i);
      match a {
        case Baseline(caught, page) =>
          if page.None? {
            var f := pub.Snapshot(caught);
            sent := {f};
          } else {
            var fs := pub.SnapshotChunks(caught, page.value);
            sent := set f | f in fs;
          }
          Grown(pub.schema, pub.epoch, pub.fp, before, pub.log, sub.phase, sub.recv.top, handed);
        case Transact(caught) =>
          var f := pub.Commit(caught);
          Grown(pub.schema, pub.epoch, pub.fp, before, pub.log, sub.phase, sub.recv.top, handed);
          if f.Some? { sent := sent + {f.value}; }
        case Deliver(f) =>
          SentIs(pub.epoch, pub.fp, schedule[..i], f);
          if f.epoch != sub.epoch || f.fp != sub.fp || f in sent {
            OwnIs(pub.epoch, pub.fp, f);
            ghost var n := Steps(pub.log, sub.phase);
            var o := sub.Receive(f, pub.log);
            JudgedStep(pub.epoch, pub.fp, pub.log, n, f, o);
            ReachedSnoc(pub.epoch, pub.fp, pub.log, handed, f);
            GenuineSnoc(pub.epoch, pub.fp, pub.log, handed, f);
            outcomes := outcomes + [o];
          } else {
            OwnIs(pub.epoch, pub.fp, f);
          }
      }
      i := i + 1;
    }
    assert schedule[..i] == schedule;
  }

  lemma OwnIs(epoch: nat, fp: nat, f: Frame)
    ensures Own(epoch, fp, f) <==> f.epoch == epoch && f.fp == fp
  {
  }

  lemma SentIs(epoch: nat, fp: nat, schedule: seq<Action>, f: Frame)
    ensures Sent(epoch, fp, schedule, f)
      <==> LogAfter(schedule).Some? && FrameOf(epoch, fp, LogAfter(schedule).value, f)
  {
  }

  lemma JudgedStep(epoch: nat, fp: nat, log: Log, n: nat, f: Frame, o: Outcome)
    requires Judged(epoch, fp, log, n, f, o)
    ensures Own(epoch, fp, f) && Pos(log, f) == n <==> o.Advanced? || o.Complete?
  {
  }

  lemma GenuineSnoc(epoch: nat, fp: nat, log: Log, frames: seq<Frame>, f: Frame)
    requires Genuine(epoch, fp, log, frames) && (Own(epoch, fp, f) ==> FrameOf(epoch, fp, log, f))
    ensures Genuine(epoch, fp, log, frames + [f])
  {
  }

  lemma HandedStep(epoch: nat, fp: nat, schedule: seq<Action>, i: nat)
    requires i < |schedule|
    ensures var (front, a) := (schedule[..i], schedule[i]);
      Handed(epoch, fp, schedule[..i + 1])
      == if a.Deliver? && (!Own(epoch, fp, a.frame) || Sent(epoch, fp, front, a.frame))
         then Handed(epoch, fp, front) + [a.frame] else Handed(epoch, fp, front)
  {
    assert schedule[..i + 1][..i] == schedule[..i];
    assert Handed(epoch, fp, schedule[..i]) + [] == Handed(epoch, fp, schedule[..i]);
  }

  lemma {:induction false} Grown(schema: R.Schema, epoch: nat, fp: nat, log: Log, log': Log, phase: Phase, top: R.List,
                                 frames: seq<Frame>)
    requires Grows(log, log') && At(schema, log, phase, top) && Genuine(epoch, fp, log, frames)
    ensures At(schema, log', phase, top) && Genuine(epoch, fp, log', frames)
    ensures Steps(log', phase) == Steps(log, phase)
    ensures Reached(epoch, fp, log', frames) == Reached(epoch, fp, log, frames)
  {
    hide Fold;
    hide Reached;
    hide FrameOf;
    GrowthKeeps(schema, epoch, fp, log, log', phase, top);
    ReachedGrows(epoch, fp, log, log', frames);
  }

  lemma StartsAt(schema: R.Schema, epoch: nat, fp: nat)
    ensures At(schema, NOTHING, Snapshotting(0), []) && LogAfter([]) == Some(NOTHING)
    ensures Handed(epoch, fp, []) == [] && Genuine(epoch, fp, NOTHING, [])
    ensures Steps(NOTHING, Snapshotting(0)) == Reached(epoch, fp, NOTHING, []) == 0
    ensures forall f :: !FrameOf(epoch, fp, NOTHING, f)
  {
    R.AllNil([], schema);
    assert Prefix(NOTHING, 0, 0) == [];
  }

  /** One action of a well-used schedule, as the publisher's log sees it. */
  lemma {:induction false} StepLog(schema: R.Schema, schedule: seq<Action>, i: nat, nextSeq: nat, log: Log)
    requires i < |schedule| && LogAfter(schedule[..i]) == Some(log) && Numbered(nextSeq, log)
    requires LogAfter(schedule).Some? && Sound(schema, LogAfter(schedule).value)
    ensures Allowed(log, schedule[i]) && LogAfter(schedule[..i + 1]) == Some(Logged(log, schedule[i]))
    ensures Grows(log, Logged(log, schedule[i])) && Sound(schema, log)
    ensures schedule[i].Baseline? ==> log == NOTHING && (schedule[i].page.Some? ==> schedule[i].page.value >= 1)
    ensures schedule[i].Baseline? && schedule[i].page.None? ==>
      Logged(log, schedule[i]) == Log(true, [J.FlatAll(schedule[i].caught)], [])
    ensures schedule[i].Baseline? && schedule[i].page.Some? ==>
      Logged(log, schedule[i]) == Log(false, Pages(J.FlatAll(schedule[i].caught), schedule[i].page.value), [])
    ensures schedule[i].Transact? ==> log.pages != []
    ensures schedule[i].Transact? ==>
      Logged(log, schedule[i]) == if schedule[i].caught == [] then log
        else log.(commits := log.commits + [J.FlatAll(schedule[i].caught)])
    ensures schedule[i].Deliver? ==> Logged(log, schedule[i]) == log
  {
    hide Sound;
    hide LogAfter;
    assert schedule[..|schedule|] == schedule;
    LogGrows(schedule, i + 1, |schedule|);
    LogGrows(schedule, i, i + 1);
    LogGrows(schedule, i, |schedule|);
    SoundBefore(schema, log, LogAfter(schedule).value);
    LogStep(schedule, i);
    LoggedGrows(log, schedule[i]);
  }

  lemma LogStep(schedule: seq<Action>, i: nat)
    requires i < |schedule|
    ensures var before := LogAfter(schedule[..i]);
      LogAfter(schedule[..i + 1]) ==
      if before.Some? && Allowed(before.value, schedule[i]) then Some(Logged(before.value, schedule[i])) else None
  {
    assert schedule[..i + 1][..i] == schedule[..i];
  }

  /** Earlier logs exist and only grow. */
  lemma {:induction false} LogGrows(schedule: seq<Action>, i: nat, k: nat)
    requires i <= k <= |schedule| && LogAfter(schedule[..k]).Some?
    ensures LogAfter(schedule[..i]).Some? && Grows(LogAfter(schedule[..i]).value, LogAfter(schedule[..k]).value)
    ensures LogAfter(schedule[..k]).value.pages == [] ==> LogAfter(schedule[..k]).value == NOTHING
    decreases k
  {
    hide Logged;
    hide Allowed;
    hide LogAfter;
    if k == 0 {
      assert schedule[..0] == [];
      LogNil();
    } else {
      LogStep(schedule, k - 1);
      LogGrows(schedule, if i == k then k - 1 else i, k - 1);
      LoggedGrows(LogAfter(schedule[..k - 1]).value, schedule[k - 1]);
    }
  }

  lemma LogNil()
    ensures LogAfter([]) == Some(NOTHING)
  {
  }

  // ---- every frame in order ----

  /** The frame at a place of the stream. */
  function FrameAt(epoch: nat, fp: nat, log: Log, k: nat): Frame
    requires k < |log.pages| + |log.commits|
  {
    if k >= |log.pages| then Batch(epoch, k - |log.pages| + 1, fp, log.commits[k - |log.pages|])
    else if log.single then Batch(epoch, 0, fp, log.pages[k])
    else SnapshotChunk(epoch, fp, k, k + 1 == |log.pages|, log.pages[k])
  }

  /** The stream holds exactly the frames sent, each at its own place. */
  lemma FrameAtPos(epoch: nat, fp: nat, log: Log)
    requires log.pages != [] && (log.single ==> |log.pages| == 1)
    ensures forall k: nat :: k < |log.pages| + |log.commits| ==>
      FrameOf(epoch, fp, log, FrameAt(epoch, fp, log, k)) && Pos(log, FrameAt(epoch, fp, log, k)) == k
    ensures forall f :: FrameOf(epoch, fp, log, f) ==>
      0 <= Pos(log, f) < |log.pages| + |log.commits| && FrameAt(epoch, fp, log, Pos(log, f)) == f
  {
  }

  /** Deliver the first `k` frames of the log, in order. */
  function InOrder(epoch: nat, fp: nat, log: Log, k: nat): seq<Action>
    requires k <= |log.pages| + |log.commits|
  {
    if k == 0 then [] else InOrder(epoch, fp, log, k - 1) + [Deliver(FrameAt(epoch, fp, log, k - 1))]
  }

  /** After any schedule, delivering the sent frames in order folds at least as many. */
  lemma {:induction false} InOrderReaches(epoch: nat, fp: nat, schedule: seq<Action>, log: Log, k: nat)
    requires LogAfter(schedule) == Some(log) && log.pages != [] && (log.single ==> |log.pages| == 1)
    requires k <= |log.pages| + |log.commits|
    ensures var all := schedule + InOrder(epoch, fp, log, k);
      LogAfter(all) == Some(log) && Reached(epoch, fp, log, Handed(epoch, fp, all)) >= k
    decreases k
  {
    hide Reached;
    hide FrameOf;
    hide FrameAt;
    hide Pos;
    if k == 0 {
      assert schedule + [] == schedule;
    } else {
      InOrderReaches(epoch, fp, schedule, log, k - 1);
      var (front, f) := (schedule + InOrder(epoch, fp, log, k - 1), FrameAt(epoch, fp, log, k - 1));
      var all := schedule + InOrder(epoch, fp, log, k);
      assert all == front + [Deliver(f)] && all[..|front|] == front;
      FrameAtPos(epoch, fp, log);
      assert FrameOf(epoch, fp, log, f) && Pos(log, f) == k - 1;
      FrameIsOwn(epoch, fp, log, f);
      ReachedSnoc(epoch, fp, log, Handed(epoch, fp, front), f);
    }
  }

  lemma FrameIsOwn(epoch: nat, fp: nat, log: Log, f: Frame)
    requires FrameOf(epoch, fp, log, f)
    ensures Own(epoch, fp, f)
  {
  }

  /** Nothing past the end is ever folded. */
  lemma AtBound(schema: R.Schema, log: Log, phase: Phase, top: R.List)
    requires At(schema, log, phase, top)
    ensures Steps(log, phase) <= |log.pages| + |log.commits|
    ensures log.pages != [] && Steps(log, phase) == |log.pages| + |log.commits| ==>
      phase == Live(|log.commits|) && Fold(schema, AllEvents(log)) == Some(top)
  {
  }

  /** Progress: after any schedule, however lossy, delivering the sent frames once in order brings
      the subscriber live at the last commit, with the fold of all the log's events. */
  method CatchUp(schedule: seq<Action>, pub: Publisher, sub: Subscriber, ghost log: Log)
      returns (outcomes: seq<Outcome>)
    requires pub.log == NOTHING && Numbered(pub.nextSeq, pub.log)
    requires sub.epoch == pub.epoch && sub.fp == pub.fp && sub.recv.schema == pub.schema
    requires sub.phase == Snapshotting(0) && sub.recv.top == []
    requires LogAfter(schedule) == Some(log) && log.pages != [] && Sound(pub.schema, log)
    modifies pub, sub, sub.recv
    ensures pub.log == log && sub.phase == Live(|log.commits|)
    ensures Fold(pub.schema, AllEvents(log)) == Some(sub.recv.top)
    ensures forall o :: o in outcomes ==> !o.Panicked?
  {
    hide *;
    ghost var total := |log.pages| + |log.commits|;
    SingleLog(schedule, log);
    InOrderReaches(pub.epoch, pub.fp, schedule, log, total);
    var sent := PublishedLog(schedule);
    SentLog(schedule, log);
    var all := schedule + InOrder(pub.epoch, pub.fp, sent, |sent.pages| + |sent.commits|);
    outcomes := RunAll(all, pub, sub);
    AtBound(pub.schema, log, sub.phase, sub.recv.top);
  }

  /** A whole session: the handshake between a publisher and a subscriber that agree on the
      fingerprint is accepted, and the subscriber then gets there over any network. */
  method Session(epoch: nat, schema: R.Schema, fpOf: R.Schema -> nat, schedule: seq<Action>, ghost log: Log)
      returns (tree: R.List, phase: Phase)
    requires LogAfter(schedule) == Some(log) && log.pages != [] && Sound(schema, log)
    ensures phase == Live(|log.commits|) && Fold(schema, AllEvents(log)) == Some(tree)
  {
    hide *;
    var pub := new Publisher(epoch, schema, fpOf);
    var hello := pub.SayHello();
    var sub, _ := Open(hello, fpOf);
    var _ := CatchUp(schedule, pub, sub.value, log);
    tree, phase := sub.value.recv.top, sub.value.phase;
  }

  function PublishedLog(schedule: seq<Action>): Log {
    if LogAfter(schedule).Some? then LogAfter(schedule).value else NOTHING
  }

  lemma SentLog(schedule: seq<Action>, log: Log)
    requires LogAfter(schedule) == Some(log)
    ensures PublishedLog(schedule) == log
  {
  }

  /** A single-shot baseline is one page. */
  lemma {:induction false} SingleLog(schedule: seq<Action>, log: Log)
    requires LogAfter(schedule) == Some(log)
    ensures log.single ==> |log.pages| == 1
    decreases |schedule|
  {
    if schedule != [] {
      var front := schedule[..|schedule| - 1];
      SingleLog(front, LogAfter(front).value);
    }
  }

  lemma {:induction false} SameEvents(caught: seq<R.CaughtChange>, max: nat, commits: seq<Events>)
    requires max >= 1
    ensures Pages(J.FlatAll(caught), max) != []
    ensures AllEvents(Log(false, Pages(J.FlatAll(caught), max), commits))
         == AllEvents(Log(true, [J.FlatAll(caught)], commits))
  {
    var (paged, whole) := (Log(false, Pages(J.FlatAll(caught), max), commits), Log(true, [J.FlatAll(caught)], commits));
    PagesKeep(J.FlatAll(caught), max);
    ConcatSnoc([], J.FlatAll(caught));
    assert paged.pages[..|paged.pages|] == paged.pages;
    assert whole.pages[..1] == [J.FlatAll(caught)] == [] + [J.FlatAll(caught)];
    assert Concat([]) + J.FlatAll(caught) == J.FlatAll(caught);
  }

  lemma SoundSame(schema: R.Schema, log: Log, log': Log)
    requires Sound(schema, log) && AllEvents(log) == AllEvents(log')
    ensures Sound(schema, log')
  {
  }

  /** Two runs, one with a paged baseline of any page size and one with the single-shot baseline,
      over the same data and commits and over two arbitrary networks: both subscribers get there,
      and they hold the same tree. */
  method PageSizeIrrelevant(ghost caught: seq<R.CaughtChange>, ghost max: nat, ghost commits: seq<Events>,
                            paged: seq<Action>, pub: Publisher, sub: Subscriber,
                            whole: seq<Action>, pub': Publisher, sub': Subscriber)
    returns (t: R.List, u: R.List)
    requires pub != pub' && sub != sub' && sub.recv != sub'.recv && pub.schema == pub'.schema && max >= 1
    requires pub.log == NOTHING && Numbered(pub.nextSeq, pub.log)
    requires sub.epoch == pub.epoch && sub.fp == pub.fp && sub.recv.schema == pub.schema
    requires sub.phase == Snapshotting(0) && sub.recv.top == []
    requires pub'.log == NOTHING && Numbered(pub'.nextSeq, pub'.log)
    requires sub'.epoch == pub'.epoch && sub'.fp == pub'.fp && sub'.recv.schema == pub'.schema
    requires sub'.phase == Snapshotting(0) && sub'.recv.top == []
    requires LogAfter(paged) == Some(Log(false, Pages(J.FlatAll(caught), max), commits))
    requires LogAfter(whole) == Some(Log(true, [J.FlatAll(caught)], commits))
    requires Sound(pub.schema, Log(true, [J.FlatAll(caught)], commits))
    modifies pub, sub, sub.recv, pub', sub', sub'.recv
    ensures sub.phase == sub'.phase == Live(|commits|)
    ensures t == sub.recv.top && u == sub'.recv.top && t == u
  {
    hide *;
    ghost var log := Log(false, Pages(J.FlatAll(caught), max), commits);
    ghost var log' := Log(true, [J.FlatAll(caught)], commits);
    SameEvents(caught, max, commits);
    SoundSame(pub.schema, log', log);
    var _ := CatchUp(paged, pub, sub, log);
    var _ := CatchUp(whole, pub', sub', log');
    t, u := sub.recv.top, sub'.recv.top;
  }
}
