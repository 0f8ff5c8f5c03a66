# Rindle in Dafny

Rindle is an incremental view maintenance engine: after every write, the view it maintains must
be what a fresh run of the query would return. This project models the components that carry that
promise and proves it of them, component by component and where they meet:

- `Values`, `Order`, `Lists`: cells (64-bit integers and doubles compared exactly), rows, the sort
  comparator, and strictly sorted sequences as finite ordered sets. Trees, cursors and diffs are
  proved for every strict weak order; `compare_rows` under any sort is shown to be one.
- `BTree`: the B+tree's insertion, deletion, lookup and bulk load, with split, merge, cached
  maxima and root growth and collapse, against ordered-set insertion and removal.
- `CowStore`, `CowForest`: the same tree on a heap of reference-counted nodes that are edited in
  place when unshared and copied when shared; any run of forks, writes and drops over shared
  nodes against the same run on separate sets.
- `StructuralDiff`: the dual-cursor walk over two trees, against a merge of their rows and a
  characterisation by membership.
- `Cursor`: bounded forward and reverse scans with sentinel bounds, against filtering all rows.
- `Changes`, `MemorySource`, `Optimistic`: source changes; the indexes of a source and fetches by
  index seek; the optimistic rebase loop built on the structural diff.
- `Receiver`, `Join`, `JoinTree`, `Protocol`: the flat change stream and the receiver that folds it,
  the hierarchical join that emits it (with its live overlay), query trees of joins of any depth and
  width, and the epoch/sequence protocol that carries the stream over an arbitrary network.
- `FilterChain`, `WhereTree`, `Predicates`, `Guards`, `Like`: wiring and running AND/OR filter regions,
  the where-tree passes, compiling and evaluating leaf predicates, the two over-approximations of a
  condition, and LIKE.
- `JournalFrame`, `Arena`: the journal frame codec, and the generational slot arena.

Where the code does not meet a property on every input, the exact condition is proved:
`Receiver.EditMoveLaw` and `Receiver.ApplyKeepsTree` (moving the last reference of an entry onto the
key of the very next entry leaves two entries with one key; this is the only case, at any depth),
`Join.SpliceExactIff` (a child whose primary key has a null cell cannot be taken back by the
overlay), `MemorySource.AgreeIff` (the existence check admits changes that leave indexes in
disagreement: exactly those that name a stored row by its primary key but not by some index's key),
`WhereTree.FlattenIff` and `WhereTree.FlattenBelowIff` (flattening drops parts without leaves, which
preserves meaning exactly where such a part is neutral), `Arena.WrapRepeats` (a generation that wraps
repeats an id) and `Predicates.LiteralCell` (the literal minus zero). The comment on `finish_walk` and the
gate on the previous comparison in `diff_visit` suggest cases that the proof shows cannot arise.

The documentation of `create_predicate` says LIKE patterns have no escape; the matcher does
honour `\`, and the model follows the matcher. The documentation of `compare_values` says integers
and floats compare by widening; the code compares them exactly, and so does the model. A float that
equals an integer is modelled as that integer's cell, its class under `float_int_class`;
`Values.CellOrder` says that no comparison can tell the difference.

A tree write takes a node out of the heap, edits it, and puts it back; this stands for the edit in
place through `Rc::make_mut`. Panics are modelled as `None` or as an outcome value. Facts are
obtained from definitions through small lemmas named `...Is`, `...Opens`, `...Step`; `hide *` at the
head of a proof says that nothing else of the definitions is used.

## Model

| member | source | states |
|---|---|---|
| Values.ValueLaws | rust/src/value.rs:267-293 | comparing equal is being the same cell, and swapping the arguments reverses the result, for all cells, floats included |
| Values.ValueTransitive | rust/src/value.rs:267-293 | cell comparison is transitive across and within types, integers mixed with floats included |
| Values.NumberOrder | rust/src/value.rs:278-342 | the four integer and float arms together compare exact values on one line, NaNs, infinities and minus zero included |
| Values.ClassIff | rust/src/value.rs:351-363 | a double has the class of an integer exactly when it compares equal to it |
| Values.CellOrder | rust/src/value.rs:351-363 | comparing stored numbers is comparing their classes |
| Values.PowersExact | rust/src/value.rs:351-363 | every power of two below 2^63 is a double of that class |
| Values.BytesOrder | rust/src/value.rs:288-290 | strings and JSON texts compare as bytes: a proper prefix first, else the first byte that differs |
| Values.CellOrderIs | rust/src/value.rs:267-293 | the cell order said outright: absent, null, false, true, numbers by exact value, strings, JSON texts by bytes |
| Values.EqualitiesAre | rust/src/value.rs:367-420 | join equality is sameness of cells neither null nor absent; predicate identity is sameness |
| Values.FullRowEqualIsEquality | rust/src/btree.rs:1330-1335 | full-width comparison accepts exactly identical rows |
| Values.RowLaws | rust/src/value.rs:1043-1064 | rows tie exactly when they agree on every sort column; comparison is antisymmetric for any mix of directions |
| Values.RowTransitive | rust/src/value.rs:1043-1064 | row comparison is transitive for any mix of directions |
| Values.RowOrderIs | rust/src/value.rs:1043-1064 | one row is less than another exactly when the first sort column on which they differ says so, in its direction |
| Order.SortIsStrictWeak | rust/src/value.rs:1043-1064 | every sort's comparator is a strict weak order whose ties are agreement on the sort columns |
| Order.HitIffPresent | rust/src/btree.rs:207-219 | the lower bound finds a key exactly when a row with that key is present, and finds that row |
| Order.InsertActsAsUpdate | rust/src/btree.rs:417-440 | ordered insertion keeps strict order and acts as an update of the map from keys to rows |
| Order.RemoveActsAsErasure | rust/src/btree.rs:451-459 | ordered removal keeps strict order and acts as erasure of a key |
| BTree.LowerBoundLoop | rust/src/btree.rs:224-236 | the binary search loop returns the first position not below the key |
| BTree.Search | rust/src/btree.rs:207-219 | the three-way search loop agrees with the lower bound and reports presence exactly |
| BTree.ChildIndexLoop | rust/src/btree.rs:241-259 | the loop returns the first child whose maximum reaches the key, or the last child |
| BTree.NodeSetCorrect | rust/src/btree.rs:658-715 | node insertion with splits keeps leaf depth, cached maxima, occupancy and non-emptiness on both halves, and their rows are the old rows with the key set |
| BTree.LeafSplits | rust/src/btree.rs:658-676 | a leaf splits exactly when it holds 64 rows and the key is new, into 32 and 33; an equal key overwrites |
| BTree.InternalSplits | rust/src/btree.rs:696-712 | an internal node splits exactly at its 65th child, into 32 and 33, children and separators in order |
| BTree.TryMergeFlat | rust/src/btree.rs:769-811 | merging two siblings keeps every row, and their shape |
| BTree.MergesIff | rust/src/btree.rs:769-785 | two neighbours become one exactly when together they hold at most 64 keys |
| BTree.ScanMerges | rust/src/btree.rs:745-760 | after a deletion an emptied child is dropped, and one with at most 32 keys is merged where that fits |
| BTree.NodeDeleteCorrect | rust/src/btree.rs:721-764 | node deletion with merge scans keeps the shape (or leaves an empty node) and erases exactly the key; an absent key may merge nodes but changes no row |
| BTree.AddCorrect | rust/src/btree.rs:417-440 | `add` keeps every tree invariant, contents become the ordered insertion, size follows, and the result says whether the key was new |
| BTree.DeleteCorrect | rust/src/btree.rs:451-481 | `delete` keeps every tree invariant through root collapse, contents become the ordered removal, and the result says whether the key was present |
| BTree.FindCorrect | rust/src/btree.rs:316-329 | descent by cached maxima finds exactly what scanning all rows finds |
| BTree.PackLevel | rust/src/btree.rs:503-518 | packing one level keeps its rows, builds well-shaped parents and has fewer nodes |
| BTree.FromSorted | rust/src/btree.rs:488-523 | bulk load keeps the rows in order and, on strictly sorted input, gives a valid tree |
| StructuralDiff.DiffCursor.StepToNode | rust/src/btree.rs:1379-1443 | stepping past a node consumes exactly that node's rows |
| StructuralDiff.DiffCursor.Step | rust/src/btree.rs:1379-1443 | stepping consumes one leaf row, or descends one level without consuming any |
| StructuralDiff.DiffSharedSuffix | rust/src/btree.rs:1245-1256 | skipping rows both sides share does not change the difference |
| StructuralDiff.SkipTurn | rust/src/btree.rs:1245-1256 | skipping a node shared by both trees changes no event and keeps the walk's invariant |
| StructuralDiff.FinishWalk | rust/src/btree.rs:1475-1494 | when one side ends, the other is strictly past it, so draining it completes the difference; the early-termination case is never reached |
| StructuralDiff.DualWalk | rust/src/btree.rs:1180-1273 | the loop terminates and emits exactly the difference, whichever identity tests succeed |
| StructuralDiff.DiffVisit | rust/src/btree.rs:1157-1273 | for two valid trees of any heights the events are the merge difference of their rows |
| StructuralDiff.DiffExact | rust/src/btree.rs:1157-1273 | the difference holds exactly the self-only, other-only and changed rows, each key once, in strictly descending order |
| CowStore.DenotesUnique | rust/src/btree.rs:25-31 | an address denotes at most one tree |
| CowStore.Heap.MakeMut | rust/src/btree.rs:25-31 | opening a node for editing reuses its address exactly when its count is one, and otherwise copies it and leaves the shared node; counts are exact and every other reference keeps its tree |
| CowStore.Heap.NodeSet | rust/src/btree.rs:658-715 | path-copying insertion on the heap gives the pure insertion's tree, with exact counts and no effect on any kept reference |
| CowStore.Heap.TryMerge | rust/src/btree.rs:769-811 | merging siblings on the heap, shared or not, gives the pure merge and keeps counts exact |
| CowStore.Heap.NodeDelete | rust/src/btree.rs:721-764 | path-copying deletion on the heap gives the pure deletion's tree, with exact counts and no effect on any kept reference |
| CowStore.Heap.Drop | rust/src/btree.rs:25-31 | dropping a reference frees exactly what nothing else refers to and leaves every kept reference's tree alone |
| CowForest.Forest.Fork | rust/src/btree.rs:392-397 | a fork is one more reference: a new handle with the same set |
| CowForest.Forest.Add | rust/src/btree.rs:417-440 | adding through one handle changes that handle's set and no other |
| CowForest.Forest.Delete | rust/src/btree.rs:451-481 | deleting through one handle, root collapse included, changes that handle's set and no other |
| CowForest.RunAll | rust/src/btree.rs:392-481 | after any run of creates, forks, adds, deletes and drops, counts are exact and each handle holds what the run does to separate unshared sets |
| Cursor.BoundIsCut | rust/src/btree.rs:185-198 | every bound with Min/Max sentinels and mixed directions splits the sort order |
| Cursor.BoundOrderIs | rust/src/btree.rs:185-198 | a bound is below (or above) a row exactly when the first sort column on which it does not hold the row's own cell says so, sentinels and missing columns included |
| Cursor.CutLower | rust/src/btree.rs:281-293 | the loop finds the first row not below the bound |
| Cursor.CutUpper | rust/src/btree.rs:297-309 | the loop finds the first row above the bound |
| Cursor.ChildIndexBound | rust/src/btree.rs:261-277 | the chosen child is the first whose maximum reaches the bound, or the last |
| Cursor.SeekChild | rust/src/btree.rs:905-932 | descending to the chosen child loses no qualifying row, forward or reverse |
| Cursor.BTreeCursor.DescendSeek | rust/src/btree.rs:905-932 | what lies ahead of the seek position is exactly the rows above the bound |
| Cursor.BTreeCursor.DescendSeekReverse | rust/src/btree.rs:941-972 | what lies behind the seek position is exactly the rows below the bound, falling back a leaf where needed |
| Cursor.BTreeCursor.NextLeaf | rust/src/btree.rs:976-995 | moves to the leaf holding the next rows, across any number of levels, or exhausts |
| Cursor.BTreeCursor.PrevLeaf | rust/src/btree.rs:998-1016 | mirror of the next leaf |
| Cursor.BTreeCursor.NormalizeForward | rust/src/btree.rs:1020-1027 | keeps the rows ahead and leaves the cursor on a row or exhausted |
| Cursor.BTreeCursor.NormalizeReverse | rust/src/btree.rs:1029-1036 | keeps the rows behind and leaves the cursor on a row or exhausted |
| Cursor.BTreeCursor.NextRow | rust/src/btree.rs:1038-1075 | hands out the pending rows one by one, none skipped or repeated |
| Cursor.ValuesFrom | rust/src/btree.rs:603-619 | a forward cursor has pending exactly the rows from the bound on |
| Cursor.ValuesFromReversed | rust/src/btree.rs:625-641 | a reverse cursor has pending exactly the rows up to the bound, descending |
| Cursor.ForwardScan | rust/src/btree.rs:603-619 | for every tree, sort and bound, a forward scan returns exactly the rows at or above (or above) the bound, ascending |
| Cursor.ReverseScan | rust/src/btree.rs:625-641 | for every tree, sort and bound, a reverse scan returns exactly the rows at or below (or below) the bound, descending |
| Changes.WriteTreeCorrect | rust/src/btree.rs:1311-1324 | applying a change to a tree keeps it valid and applies the change to its row set |
| Changes.DiffApplies | rust/src/btree.rs:1279-1299 | applying the changes of a difference in order turns one set into the other, and each is legal when applied |
| MemorySource.WriteNet | rust/src/memory_source.rs:328-347 | a legal change written to any index that includes the primary key has the same net effect on its rows |
| MemorySource.AgreeIff | rust/src/memory_source.rs:328-347 | after any write, legal or not, indexes that agreed agree if and only if each stored row the change names by its primary key it names by every index's key |
| MemorySource.LegalTies | rust/src/memory_source.rs:328-347 | every legal change meets that condition |
| MemorySource.CheckedIsNotLegal | rust/src/source_common.rs:1097-1118 | a concrete stale removal passes the existence check and leaves a secondary index behind |
| MemorySource.LegalSplit | rust/src/source_common.rs:1271-1316 | splitting a legal edit into removal and addition is legal and has the same effect |
| MemorySource.SplitIff | rust/src/source_common.rs:1262-1268 | an edit is split exactly when the cell of a split key changes or is null |
| MemorySource.StableSortSorts | rust/src/memory_source.rs:401-401 | sorting rows without ties gives a strictly sorted list of the same rows |
| MemorySource.IndexSortIs | rust/src/memory_source.rs:607-620 | the index of a constrained fetch sorts by the constrained columns and then as requested, the latter dropped for a one-column primary key |
| MemorySource.StartReaches | rust/src/memory_source.rs:474-495 | the seek bound of a constraint lies at or before every matching row, in both directions |
| MemorySource.SqueezedAt | rust/src/memory_source.rs:474-495 | between the seek bound and a matching row every row agrees on the constrained columns |
| MemorySource.GateIsFilter | rust/src/source_common.rs:784-818 | skipping to the start and breaking at the first mismatch is filtering, for streams where matches come first |
| MemorySource.Source.constructor | rust/src/memory_source.rs:99-124 | a new source holds the given rows in a valid primary index |
| MemorySource.Source.Exists | rust/src/memory_source.rs:315-322 | true exactly when a row with that primary key is held |
| MemorySource.Source.WriteChange | rust/src/memory_source.rs:328-347 | every index gets the change, and indexes that agreed still agree exactly under the condition of `AgreeIff` |
| MemorySource.Source.TryPush | rust/src/source_common.rs:1271-1316 | which changes are admitted, split or not; an admitted one, legal or not, is written to every index, with agreement kept exactly under the condition of `AgreeIff`; a legal one is always admitted; a refused one changes nothing, except that an edit refused at its second half leaves its first half written |
| MemorySource.Source.EnsureIndex | rust/src/memory_source.rs:381-410 | a lazily built index is valid and holds exactly the primary's rows |
| MemorySource.Source.Fetch | rust/src/memory_source.rs:585-686 | whatever index and seek are chosen, the result is exactly the rows that pass the filter, hold the constrained cells, and lie strictly past the start row (`After`) or not before it (`At`) in the direction of travel, in that direction; it equals filtering a fully sorted scan |
| Optimistic.ApplyDeltas | rust/src/optimistic.rs:129-132 | the transient tree is the confirmed tree with the deltas folded in order |
| Optimistic.StructuralDiff | rust/src/btree.rs:1279-1299 | the changes are legal in order and turn one tree's rows into the other's |
| Optimistic.RewindTable | rust/src/optimistic.rs:127-146 | whatever the live table holds, the pushed changes are each legal when pushed and bring it to the confirmed rows with the deltas applied; none is refused, `sync` equals live, and indexes that agreed still agree |
| Optimistic.OptimisticTables.Track | rust/src/optimistic.rs:68-86 | tracking starts with the confirmed tree equal to the live table, is idempotent, and refuses a source that is not in memory |
| Optimistic.OptimisticTables.DoRewind | rust/src/optimistic.rs:111-149 | a batch for an unknown table is refused with no effect; otherwise every table is rewound |
| Optimistic.OptimisticTables.DoWrite | rust/src/source_common.rs:1271-1316 | a write changes its own live table as the push does, whether admitted, refused, or refused at the second half of a split edit, and no other table |
| Optimistic.OptimisticTables.RunAll | rust/src/optimistic.rs:111-149 | after any run of optimistic writes and rewinds, confirmed rows are the initial rows with all accepted batches in order, and live rows are what the last accepted rewind confirmed with the writes since pushed in order |
| Receiver.AddLaw | rust/src/flat_receiver.rs:117-123 | adding a node adds one reference at its key, keeps known children, and keeps order |
| Receiver.RemoveLaw | rust/src/flat_receiver.rs:155-166 | removing drops one reference, panics exactly on an absent key, and keeps order |
| Receiver.EditInPlaceLaw | rust/src/flat_receiver.rs:170-183 | an edit that keeps the sort key keeps position, count and children |
| Receiver.EditMoveLaw | rust/src/flat_receiver.rs:170-224 | an edit across keys moves one reference, carrying or keeping children, exactly outside the case of a last reference moving onto the next entry's key |
| Receiver.StuckExample | rust/src/flat_receiver.rs:195-199 | a concrete list on which the same-slot shortcut leaves one key twice |
| Receiver.BuiltTree | rust/src/flat_receiver.rs:129-152 | a built node's subtree is well formed at every level and empty out of view |
| Receiver.ApplyKeepsTree | rust/src/flat_receiver.rs:90-114 | a change that does not panic leaves the whole tree well formed if and only if it does not end in the stuck case, at whatever depth |
| Receiver.Flatten | rust/src/flat.rs:87-124 | the peeling loop computes the path and operation of the nested change |
| Receiver.FlatMeansNested | rust/src/flat.rs:87-124 | replaying a flattened change has the effect of the nested change |
| Receiver.NestFlattens | rust/src/flat.rs:87-124 | every flat change is the flattening of a nested one |
| Receiver.Receiver.Fold | rust/src/flat_receiver.rs:59-61 | one change applied or a panic with the tree unchanged; well-formedness is kept exactly outside the stuck case |
| Receiver.Receiver.FoldAll | rust/src/flat_receiver.rs:65-69 | a batch applied in order is the fold of its changes; at a panic exactly the changes before it are applied |
| Join.BuildJoinConstraint | rust/src/change.rs:230-244 | the loop builds the constraint, or nothing when a key cell is null |
| Join.ConstraintMatches | rust/src/change.rs:168-171 | a row satisfies the built constraint exactly when it matches on the key; a null key matches nothing |
| Join.JoinMatches | rust/src/op/join_util.rs:23-29 | the parent-to-child and child-to-parent constraints describe one relation |
| Join.ParentMaintains | rust/src/graph.rs:2275-2343 | for every legal parent change, folding what the join emits into the old tree gives the fresh join tree (the passthrough of nested changes is in `JoinTree.Maintains`) |
| Join.EditRefusedIff | rust/src/graph.rs:2311-2333 | a parent edit goes out exactly when it keeps every cell of the join key, nulls included |
| Join.KidsAfter | rust/src/graph.rs:1813-1841 | a legal child change, seen from one parent, changes that parent's children legally, or not at all |
| Join.LeafMaintains | rust/src/flat_receiver.rs:108-114 | a legal change delivered to one child list gives the changed list |
| Join.SpliceRestores | rust/src/graph.rs:2902-2935 | the overlay gives a late parent exactly its old children, as a set and in the schema order |
| Join.SpliceExactIff | rust/src/graph.rs:2902-2935 | the overlay is exact if and only if the row to suppress has no null primary-key cell |
| Join.NullKeyExample | rust/src/graph.rs:2902-2935 | a child added with a null key cell stays visible to a late parent |
| Join.ViewIs | rust/src/graph.rs:1878-1901 | at each position of the fan-out every parent's thunk shows what downstream holds for it |
| Join.JoinOp.Fetch | rust/src/graph.rs:1794-1841 | a fetch attaches to each parent the children its live overlay admits; with no change in flight it returns the fresh join tree |
| Join.JoinOp.PushChildChange | rust/src/graph.rs:2397-2455 | for every legal child change the deliveries turn the old join tree into the fresh one, and a fetch re-entering at any point returns the tree after the deliveries so far |
| JoinTree.WireBuilds | rust/src/graph.rs:1813-1841 | a row the joins have processed builds into exactly the subtree a fresh query holds below it, at every depth |
| JoinTree.MaintainsPart | rust/src/graph.rs:2275-2455 | any part of the top rows that the change does not cross is maintained by its own share of what the joins emit |
| JoinTree.Maintains | rust/src/graph.rs:2275-2455 | for every query tree and every legal change to any of its tables, passed up through all joins as parent, child and nested child changes, folding what comes out into the old tree gives the tree of a fresh query |
| JoinTree.MaintainsRun | rust/src/graph.rs:2275-2455 | after any run of legal writes to any of the tables the folded view equals a fresh query |
| JoinTree.SplitMaintains | rust/src/graph.rs:2275-2455 | once the joined columns are split keys, the view after any truthful write, key-moving edits included, equals a fresh query |
| Protocol.PagesKeep | rust/src/flat_protocol.rs:185-215 | paging keeps every event in order; every page but the last holds exactly the page size, and the last is empty only when there are no events |
| Protocol.Publisher.Snapshot | rust/src/flat_protocol.rs:171-173 | the single-shot baseline takes number 0 |
| Protocol.Publisher.SnapshotChunks | rust/src/flat_protocol.rs:185-215 | the frames are exactly the log's pages in order, the last one marked, and number 0 is used up |
| Protocol.Publisher.Commit | rust/src/flat_protocol.rs:221-237 | an empty transaction sends nothing and uses no number; others are numbered without gaps |
| Protocol.Open | rust/src/flat_protocol.rs:273-294 | a subscriber opens exactly on comparator version 2 and a fingerprint matching the schema, and each refusal is named |
| Protocol.Subscriber.ApplySnapshotChunk | rust/src/flat_protocol.rs:318-346 | the outcome exactly: accepted if and only if the frame is the next one, duplicate if and only if already folded, each refusal if and only if its guard; duplicates and refusals change nothing, and the tree stays the fold of an exact prefix |
| Protocol.Subscriber.Apply | rust/src/flat_protocol.rs:352-387 | the same for batches |
| Protocol.RunAll | rust/src/flat_protocol.rs:141-387 | over every schedule of sends, losses, repeats, reorderings and foreign frames the subscriber has folded exactly the frames that came when they were next, and its tree is the fold of that prefix of its own epoch's events |
| Protocol.CatchUp | rust/src/flat_protocol.rs:141-387 | after any schedule, delivering the sent frames in order reaches the last commit with the fold of all events of the log, for every page size |
| Protocol.Session | rust/src/flat_protocol.rs:141-387 | a publisher's own handshake is accepted, and from there the subscriber reaches the last commit with the fold of all events, over any network |
| Protocol.PageSizeIrrelevant | rust/src/flat_protocol.rs:185-215 | a paged run with any page size and a single-shot run, over arbitrary networks, both reach the last commit and hold the same tree |
| FilterChain.Graph.ApplyAnd | rust/src/builder.rs:2116-2134 | the conjunction's links are laid out and wired in series |
| FilterChain.Graph.ApplyOr | rust/src/builder.rs:2142-2162 | the disjunction's branches all run from one fan-out to one fan-in |
| FilterChain.Graph.BuildFilterBranch | rust/src/builder.rs:2068-2086 | the wired region leads from its filter start through the condition to its filter end |
| FilterChain.LaidUnfolds | rust/src/builder.rs:2095-2162 | what the builder wires unfolds to the condition's chain, so walks over it end |
| FilterChain.RegionFilters | rust/src/graph.rs:2073-2096 | for every AND/OR tree, empty nodes included, the wired region accepts a row exactly when the condition holds |
| FilterChain.CollapseAccumulated | rust/src/graph.rs:2991-3076 | the loop keeps the first of each kind and returns at most one change |
| FilterChain.CollapseIs | rust/src/graph.rs:2991-3076 | collapsing branch results gives the change the disjunction implies, an edit rebuilt from split branches included, and no assertion fires |
| FilterChain.PushIs | rust/src/graph.rs:2175-2273 | pushing through any chain lets out exactly the implied change |
| FilterChain.PushCalm | rust/src/graph.rs:2991-3076 | no assertion of the collapse fires at any fan a push meets |
| FilterChain.RegionPushes | rust/src/graph.rs:2175-2273 | a change pushed into the wired region comes out as exactly the one its truth on the old and new row implies, nothing is left over, and no assertion fires at any fan |
| FilterChain.ImpliedMaintains | rust/src/graph.rs:2175-2273 | what a filter must let out for a change is legal for the accepted rows and turns them into the accepted rows of the changed set |
| FilterChain.RegionMaintains | rust/src/graph.rs:2175-2273 | for every condition tree and legal change, what leaves the wired region turns the accepted rows into the accepted rows of the changed table |
| WhereTree.FlattenLeaves | rust/src/builder.rs:405-438 | flattening keeps every leaf in left-to-right order, on every tree |
| WhereTree.FlattenMeans | rust/src/builder.rs:405-438 | flattening preserves the meaning of every tree with a leaf whose leafless parts are neutral |
| WhereTree.FlattenBelowIff | rust/src/builder.rs:405-438 | for every tree, flattening preserves the meaning of each subtree with a leaf if and only if in every node with a leaf each leafless part holds exactly under an AND |
| WhereTree.FlattenIff | rust/src/builder.rs:367-438 | for trees with distinct leaves, normalising preserves the meaning of the whole, a dropped condition read as true, if and only if that condition holds, or the tree has no leaf and is true |
| WhereTree.EmptyAndExample | rust/src/builder.rs:405-438 | with an empty AND under an OR it does not |
| WhereTree.UniquifyNumbers | rust/src/builder.rs:440-463 | subqueries keep their order and are numbered consecutively |
| WhereTree.UniquifyMeans | rust/src/builder.rs:440-463 | numbering preserves meaning |
| WhereTree.NamedReads | rust/src/builder.rs:440-463 | a numbered alias is the base name, an underscore and the number in decimal |
| WhereTree.AliasesDistinct | rust/src/builder.rs:440-463 | numbered aliases are pairwise distinct, whatever the base names |
| WhereTree.StripWeakens | rust/src/builder.rs:487-521 | stripping subqueries only weakens the condition |
| WhereTree.StripMeans | rust/src/builder.rs:487-521 | what is left holds exactly when the condition does with every subquery gate open |
| WhereTree.StripRemoves | rust/src/builder.rs:487-521 | the flag says whether there was a subquery, and none is left |
| WhereTree.StripExact | rust/src/builder.rs:487-521 | if nothing was removed the condition is unchanged |
| WhereTree.UnderOrIs | rust/src/builder.rs:2342-2352 | below an OR the test finds exactly the conditions that contain a subquery |
| WhereTree.StripPlusGates | rust/src/builder.rs:1286-1305 | without a subquery under an OR, the stripped filter and all gathered gates together are the original condition |
| Predicates.PredicateMeans | rust/src/builder.rs:614-793 | a compiled predicate accepts a row exactly when the left cell is in the operator's relation to the literal: order of cells for the comparisons, membership for IN, LIKE's meaning, negations on non-null cells, IS with null like any cell |
| Predicates.PredicateBuilds | rust/src/builder.rs:614-793 | exactly which conditions build, unknown columns, misfit literals and mixed-type constant orderings refused |
| Predicates.LiteralCell | rust/src/builder.rs:824-832 | a number literal lowers to the cell of its number, except minus zero, which lowers to zero |
| Guards.PushableSound | rust/src/builder.rs:1970-2028 | every row a condition keeps satisfies every pair of its seek constraint |
| Guards.PushableIff | rust/src/builder.rs:1970-2028 | the seek constraint holds exactly the pairs the condition pins: equalities, the first pin in an AND, the pins all branches of an OR agree on, each column once |
| Guards.GuardSound | rust/src/builder.rs:2623-2702 | every row a condition keeps has its guarded cell among the guard's values |
| Guards.SimpleGuardIff | rust/src/builder.rs:2660-2699 | which leaves have a guard, on which column and with which values |
| Guards.AndGuardIff | rust/src/builder.rs:2623-2656 | a conjunction has the first of the shortest guards of its parts |
| Guards.OrGuardIff | rust/src/builder.rs:2623-2656 | a disjunction has a guard exactly when all parts have one and those that can match share a column; it lists their values together, each once |
| Like.PiecesMean | rust/src/predicate.rs:285-343 | the pattern read byte by byte means what LIKE with escape means |
| Like.SameByteIs | rust/src/predicate.rs:345-355 | bytes match themselves, and without case the other case of an ASCII letter, and nothing else |
| Like.MatchesFirst | rust/src/predicate.rs:285-343 | the meaning by the first pattern byte, with the special bytes by their codes and the any-wildcard as some run of bytes |
| Like.RecasedMatches | rust/src/predicate.rs:345-355 | ILIKE gives one answer for all ASCII re-casings of a text |
| Like.PlainMatches | rust/src/predicate.rs:276-417 | a pattern without special bytes matches exactly itself, or exactly its re-casings |
| Like.Compile | rust/src/predicate.rs:285-343 | the token list says what the pattern says, up to runs of the any-wildcard |
| Like.LatestSuffices | rust/src/predicate.rs:359-417 | moving an earlier restart point reaches nothing that moving the latest does not |
| Like.MatchLoop | rust/src/predicate.rs:359-417 | the loop with one restart point terminates and accepts exactly the texts the tokens mean |
| Like.LikeMatches | rust/src/predicate.rs:276-417 | compiling and matching decides LIKE and ILIKE for every pattern and text |
| JournalFrame.EncodePayloadChunks | rust/src/journal_frame.rs:94-137 | the encoder refuses exactly the invalid chunk lists, naming the first reason, and otherwise writes the container |
| JournalFrame.ContainerFits | rust/src/journal_frame.rs:101-120 | the length of a valid container stays below 2^64, so the length check of the encoder cannot fail on it |
| JournalFrame.ContainerLayout | rust/src/journal_frame.rs:71-137 | the container byte by byte: sentinel, magic, version, count, and each chunk behind its length |
| JournalFrame.DecodePayloadChunks | rust/src/journal_frame.rs:144-199 | the loop computes the container decoding, error by error |
| JournalFrame.BadPrefix | rust/src/journal_frame.rs:144-170 | what the container decoder answers to each bad prefix |
| JournalFrame.ContainerRoundTrip | rust/src/journal_frame.rs:94-199 | decoding a container returns its chunks; the declared-count checks never reject it |
| JournalFrame.ContainerExact | rust/src/journal_frame.rs:144-199 | every accepted payload is the encoding of what was read |
| JournalFrame.HeaderRoundTrip | rust/src/journal_frame.rs:424-450 | decoding any encoded header and payload returns both, under both versions |
| JournalFrame.HeaderLayout | rust/src/journal_frame.rs:424-450 | the header byte by byte: version, kind, flags, clock, run id behind its length, run rows, cumulative rows |
| JournalFrame.HeaderExact | rust/src/journal_frame.rs:507-568 | every accepted header re-encodes to the bytes it was read from |
| JournalFrame.UnknownBytes | rust/src/journal_frame.rs:507-525 | unknown versions, kinds and flags are each refused by name |
| JournalFrame.DecodeAnswers | rust/src/journal_frame.rs:507-568 | the answer to every frame with a known start: cut short, run id not UTF-8, empty frame with a payload, or a header, each exactly when |
| JournalFrame.Utf8Iff | rust/src/journal_frame.rs:533-539 | the run ids accepted are exactly the encodings of sequences of Unicode scalar values |
| JournalFrame.EncodeFrame | rust/src/journal_frame.rs:470-484 | the current frame's bytes, or the refusal |
| JournalFrame.LegacyRefuses | rust/src/journal_frame.rs:455-463 | what the legacy encoder refuses, and how |
| JournalFrame.FrameVersions | rust/src/journal_frame.rs:455-484 | legacy frames start with byte 1, current ones with byte 2 |
| JournalFrame.V1RoundTrip | rust/src/journal_frame.rs:455-463 | legacy frames round-trip, their payload as one chunk |
| JournalFrame.V2RoundTrip | rust/src/journal_frame.rs:470-501 | current frames round-trip |
| JournalFrame.FrameExact | rust/src/journal_frame.rs:490-501 | every accepted frame re-encodes to itself |
| JournalFrame.FramePrefixFree | rust/src/journal_frame.rs:490-568 | no accepted current frame is a proper prefix of another |
| Arena.CheckIsLiveness | rust/src/graph.rs:892-900 | a generation check on an issued id succeeds exactly when the id was not freed |
| Arena.FreeIsVacant | rust/src/graph.rs:799-819 | the free list holds exactly the slots without a live id |
| Arena.WrapRepeats | rust/src/graph.rs:954-996 | the bumped generation of a slot names an id never issued if and only if the bump does not wrap |
| Arena.Graph.Add | rust/src/graph.rs:799-819 | an issued id was never issued before, a vacant slot is recycled if there is one, and no live slot is disturbed |
| Arena.Graph.TakeRecording | rust/src/graph.rs:823-832 | a manifest holds only issued ids, in order |
| Arena.Graph.Lookup | rust/src/graph.rs:892-900 | the lookup succeeds exactly on ids not freed |
| Arena.Graph.LookupAll | rust/src/graph.rs:954-996 | the first pass of a teardown succeeds exactly when no id was freed |
| Arena.Graph.DestroyPipeline | rust/src/graph.rs:954-996 | the manifest is freed entirely exactly when it repeats no id and names no freed one; its slots hold tombstones and every other live id keeps its operator; a freed id panics with nothing changed, a repeated one with exactly the ids before it freed |
| Arena.Graph.RemoveSource | rust/src/graph.rs:1039-1068 | exactly a live in-memory source without readers is removed, every other live id keeps its operator; anything else changes nothing |
| Arena.RunAll | rust/src/graph.rs:799-1068 | over any run of additions, recordings, teardowns and removals, up to a wrap, the recycling arena does what one that never recycles does: it panics exactly where that one does, a live id finds the operator it was added with, and a dead one fails its check |

## Left out

- Two stored numbers of one class, `1` and `1.0`, are one cell, so which of the two a row holds is not represented.
- The panic of `compare_values` on cells of different types: such pairs are ordered by type rank, as the predicate comparator does. Reading past the end of a row yields an absent cell instead of a panic.
- Pointer identity is a test that may fail at will and succeeds only on equal contents; `DiffStats` and its cost claims are not modelled.
- `check_invariants` does not compare rows across leaves; the tree invariant here does.
- MemorySource.Source.TryPush: outside strict mode an illegal change is a debug assertion in the source; here, as in a release build, it is written. The fan-out to connections, the source overlay and the epoch gate are not modelled.
- MemorySource.Source.Fetch: no change is in flight, no multi-constraint is given, and the filter carries no primary-key constraint (the builder never supplies one).
- `forget` of the optimistic tables.
- Nested child lists of the receiver are values that each step replaces, not lists updated through references; counts are unbounded rather than 32 bits wide.
- Join.JoinOp.PushChildChange: the re-entrant fetch and the overlay are for one join over leaf children; nested changes carry no overlay, and JoinTree states what every depth emits without the fetch. Limiter eviction and the push deadline are not modelled.
- Join.ParentMaintains: a parent edit that changes the join key is refused, as under strict validation; so is a child edit that does, before the fan-out of Join.JoinOp.PushChildChange starts. JoinTree.SplitMaintains covers such edits as the source sends them.
- Protocol: the fingerprint is an arbitrary function of the schema; frames of the subscriber's own epoch are never forged.
- FilterChain: `Exists` gates and filter probes, and the fetch bracketing of a filter region.
- WhereTree.FlattenIff: with repeated leaves a tree that is not neutral can happen to keep the meaning of its root; for such trees the condition is exact for all subtrees together (WhereTree.FlattenBelowIff).
- JournalFrame: the container length check is modelled for 64-bit lengths, where it cannot fail; a 32-bit target could refuse.
- Arena.Graph.FreeSlot: requires that the slot's generation does not wrap, that is, fewer than 2^32 frees per slot. The storage arena follows the same scheme and is not modelled separately, nor is the disconnection of source connections in a teardown.
- The operators under `op/` (Take, Cap, Exists, FlippedJoin, union fans, Reduce), the view, aggregates, SQL lowering, storage, metrics, tracing, error parking, the wasm boundary, and the TypeScript packages.
