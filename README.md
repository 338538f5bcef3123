# Cascading per-task execution core, modelled in Dafny

This project models four parts of Cascading's per-task execution logic on Hadoop:

- **The co-group closure (`HadoopCoGroupClosure`).** For each grouping, a reduce task sorts the index-tagged tuples it receives into one collection per join position.
  - Without self-joins, position 0 (the left-most input) is never copied. It streams the first index-0 tuple and then the rest of the live input.
  - With self-joins, every position is the same shared collection.
  - The closure also builds the null-padded group tuple and counts spills through listener callbacks.
- **The reducer stack (`FlowReducerStack`).** It walks the step graph from the group and builds a chain of stage elements, in this order:
  - the group;
  - then either an all-aggregator with one aggregator element per non-buffer `Every`, or one element per buffer `Every`;
  - then one element per `Each`;
  - then the sink.

  It opens the chain's tail, feeds each key to the head, and unwraps stack exceptions.
- **The mapper stack (`FlowMapperStack`).** It builds one chain per outgoing scope of the current source: `Each` elements followed by a Group or Tap terminal. It opens every chain and dispatches each record to the chains in order, stopping at the first null tuple. `close` closes every chain.
- **The split reader (`MultiRecordReaderIterator`).** It walks the input splits in order, creates a record reader per split on demand, and closes the previous reader before creating the next.

Modules and files:

| file | modules | contents |
|---|---|---|
| `common.dfy` | `Wrappers`, `Tuples` | `Option`/`Result`; tuples as sequences of opaque values |
| `step_graph.dfy` | `StepGraph` | the pipe nodes after a group or a source, as `seq<NodeKind>`; runs of one node kind; the StackException unwrapping; stage lifecycle events |
| `reducer_stack.dfy` | `ReducerStack` | the reducer chain, as the specification function `ReducerChain` and as the `FlowReducerStack` class |
| `mapper_stack.dfy` | `MapperStack` | the mapper chains and the record dispatch, as the specification functions `MapperChain` and `Dispatch` and as the `FlowMapperStack` class |
| `cogroup_spec.dfy` | `CoGroupSpec` | what build leaves in each position, the group tuple, the spill counters (pure) |
| `cogroup_closure.dfy` | `CoGroup` | the closure, its input and pass-through iterators, and the spill listener, as classes |
| `split_reader.dfy` | `SplitReaderSpec`, `SplitReader` | the split reader as a state machine with an invariant, and as a class |

Abstractions used throughout:

- **Collaborators become inputs.** What a source yields, what a stage element's `collect` raises, and whether a tap's resource exists are all parameters.
- **Stage elements are values.** An element is its kind plus the index of the pipe node it wraps. Opening, collecting and closing are recorded as events in a log.
- **Record readers are ids.** A reader is identified by its split's index, and its lifecycle (created, closed) is an event log.
- **Collections are `seq<Tuple>`.** The closure keeps them in an array of distinct buffers, plus a map from position to buffer, so aliasing between positions is explicit.

## Model

| member | source | states |
|---|---|---|
| StepGraph.RunEnd | src/core/cascading/flow/stack/FlowReducerStack.java:101-113 | a `while( operator instanceof … )` walk stops at the first node outside the run: every node before the end is in the run, the node at the end is not, and a path ending at a boundary node stops inside the path |
| StepGraph.Rethrow | src/core/cascading/flow/stack/FlowReducerStack.java:159-165 | a StackException's cause is rethrown as itself when it is an IOException or a RuntimeException; any other Throwable (a checked exception or an Error) fails the RuntimeException cast (ClassCastException) and a missing cause throws NullPointerException, each case if and only if |
| ReducerStack.ReducerChainShape | src/core/cascading/flow/stack/FlowReducerStack.java:90-141 | every built chain starts with exactly one group element and ends with exactly one sink element, and neither appears anywhere else |
| ReducerStack.ReducerChain | src/core/cascading/flow/stack/FlowReducerStack.java:84-143 | the chain and handler list buildStack builds for a walk: a failure names a node that is not a `Tap`; a built chain starts with the group, ends with a sink and has an element for every handler besides those two |
| ReducerStack.ReducerHandlersInOrder | src/core/cascading/flow/stack/FlowReducerStack.java:94-113 | the chain has an all-aggregator right after the group exactly when the first node is a non-buffer `Every`; the shared handler list is non-empty exactly then; the k-th aggregator element wraps the k-th handler, in pipeline order, and every aggregator element of the chain has its handler in the list |
| ReducerStack.ReducerChainNeverMixes | src/core/cascading/flow/stack/FlowReducerStack.java:94-115 | buffer and non-buffer `Every` elements never both occur in one chain |
| ReducerStack.ReducerChainFollowsPipeline | src/core/cascading/flow/stack/FlowReducerStack.java:92-141 | the chain wraps the pipe nodes after the group in pipeline order, each exactly once, with no gaps, and its stages never go backwards: group, all-aggregator, aggregators or buffers, `Each` elements, sink |
| ReducerStack.ReducerChainMatches | src/core/cascading/flow/stack/FlowReducerStack.java:94-141 | each element has the kind of the node it wraps: aggregator for a non-buffer `Every`, buffer for a buffer `Every`, `Each` for an `Each`, sink for a `Tap` |
| ReducerStack.ReducerChainFailure | src/core/cascading/flow/stack/FlowReducerStack.java:132-141 | building fails only by the `(Tap)` cast, at the node that ends the `Each` run following the opening `Every` run, which is not a `Tap`; no other split of the walk ends elsewhere, so the failing node is pinned |
| ReducerStack.ReducerChainSucceeds | src/core/cascading/flow/stack/FlowReducerStack.java:92-141 | the build succeeds if and only if the walk is a maximal run of aggregator `Every`s or of buffer `Every`s (possibly empty), then a run of `Each`, then a `Tap` |
| ReducerStack.ChainWalkUnique | src/core/cascading/flow/stack/FlowReducerStack.java:94-139 | the three while loops split a walk into its opening `Every` run and its `Each` run in exactly one way |
| ReducerStack.FlowReducerStack.Create | src/core/cascading/flow/stack/FlowReducerStack.java:63-82 | with 0 reduce tasks nothing is built or opened; with no group it fails with IllegalStateException; a failed build propagates its error; otherwise the chain and handler list are those of `ReducerStack.ReducerChain`, and the only event is the tail's open, after the chain is built |
| ReducerStack.FlowReducerStack.BuildStack | src/core/cascading/flow/stack/FlowReducerStack.java:84-143 | the loops build exactly the chain and the handler list of `ReducerStack.ReducerChain`, or fail exactly when it does, with its error |
| ReducerStack.FlowReducerStack.AppendAggregation | src/core/cascading/flow/stack/FlowReducerStack.java:92-130 | the aggregation loops append an all-aggregator and one aggregator element per non-buffer `Every`, recording their handlers in order, or one element per buffer `Every`, and stop at the first node past that run |
| ReducerStack.FlowReducerStack.AppendEaches | src/core/cascading/flow/stack/FlowReducerStack.java:132-139 | the `Each` loop appends one element per consecutive `Each`, in order, and stops at the first other node |
| ReducerStack.FlowReducerStack.Reduce | src/core/cascading/flow/stack/FlowReducerStack.java:145-166 | the key goes to the chain head, and a StackException from it is unwrapped by `Rethrow`; with no chain (0 reduce tasks) it throws NullPointerException |
| ReducerStack.FlowReducerStack.Close | src/core/cascading/flow/stack/FlowReducerStack.java:168-171 | closes the chain head once; with no chain it throws NullPointerException |
| MapperStack.MapperChainShape | src/core/cascading/flow/stack/FlowMapperStack.java:103-122 | a chain is the `Each` nodes in pipeline order followed by exactly one terminal, which is a Group or a Tap element |
| MapperStack.MapperChain | src/core/cascading/flow/stack/FlowMapperStack.java:97-126 | the chain built for one scope's walk: a built chain is non-empty and ends in a terminal, and a failure names a node that is neither Group nor Tap |
| MapperStack.MapperChainFailure | src/core/cascading/flow/stack/FlowMapperStack.java:112-124 | a chain fails to build if and only if its first non-`Each` node is neither a Group nor a Tap, and the failure names that node |
| MapperStack.Dispatch | src/core/cascading/flow/stack/FlowMapperStack.java:137-173 | what one call of map hands to the chains from chain i on: only collects, on chain i or later, in strictly increasing chain order (so at most one per chain), and an exception only after a collect |
| MapperStack.DispatchInOrder | src/core/cascading/flow/stack/FlowMapperStack.java:137-173 | records go to chains in array order, each chain once, with the tuple sourced for it; dispatch stops at the first null tuple or the first StackException, which is rethrown unwrapped |
| MapperStack.NullStopsDispatch | src/core/cascading/flow/stack/FlowMapperStack.java:158-160 | if the source yields null for chain i, neither chain i nor any later chain receives anything for that record |
| MapperStack.EachChainOpenedAndClosedOnce | src/core/cascading/flow/stack/FlowMapperStack.java:81-180 | for any log whose opens and closes are construction's opens (`Create` establishes this and every `Map` keeps it, whatever records it dispatches), after `Close` each chain has exactly one open of its tail followed by one close of its head |
| MapperStack.FlowMapperStack.Create | src/core/cascading/flow/stack/FlowMapperStack.java:68-85 | construction succeeds exactly when every scope's chain builds; otherwise it fails with the first failing scope and its node, and no stack (so no open chain) results; on success there is one chain per outgoing scope and every tail has been opened, in order, once |
| MapperStack.FlowMapperStack.BuildStack | src/core/cascading/flow/stack/FlowMapperStack.java:87-131 | the array has one chain per outgoing scope, each the `MapperStack.MapperChain` of its scope; failure exactly when some chain fails, reporting the first |
| MapperStack.FlowMapperStack.Map | src/core/cascading/flow/stack/FlowMapperStack.java:133-174 | the tuples-read counter grows by exactly one per call, whatever the number of chains; the events and the exception are those of `MapperStack.Dispatch`; the opens and closes of the log are unchanged |
| MapperStack.FlowMapperStack.Close | src/core/cascading/flow/stack/FlowMapperStack.java:176-180 | closes the head of chain 0, 1, …, n-1, each once |
| CoGroupSpec.FirstLhs | src/hadoop/cascading/flow/hadoop/HadoopCoGroupClosure.java:173-184 | the position where build stops draining: no tuple before it is tagged 0, and the tuple at it is |
| CoGroupSpec.Built | src/hadoop/cascading/flow/hadoop/HadoopCoGroupClosure.java:169-188 | how much position p holds after build drains a grouping's input: with self-joins one entry per input tuple; without, position 0 everything from the first index-0 tuple on, and any other position no more than came before that tuple (the contents are stated by `CoGroupSpec.BuiltContents`) |
| CoGroupSpec.BuiltContents | src/hadoop/cascading/flow/hadoop/HadoopCoGroupClosure.java:169-188 | what position p holds, entry by entry: with self-joins the value tuples in input order; without, position 0 the value tuples from the first index-0 tuple on, in order, and any other position only value tuples tagged with it that came before that tuple |
| CoGroupSpec.TaggedFrom | src/hadoop/cascading/flow/hadoop/HadoopCoGroupClosure.java:186 | every tuple a position collects came from an input entry tagged with that position |
| CoGroupSpec.Tagged | src/hadoop/cascading/flow/hadoop/HadoopCoGroupClosure.java:186 | the reference definition a position is compared against: the tuples tagged with that position, in arrival order, never more than the input |
| CoGroupSpec.TaggedAppend | src/hadoop/cascading/flow/hadoop/HadoopCoGroupClosure.java:173-187 | the tuples of one position from two input stretches in sequence are that position's tuples from the first, then from the second |
| CoGroupSpec.BuiltIsTagged | src/hadoop/cascading/flow/hadoop/HadoopCoGroupClosure.java:173-187 | without self-joins, and with the index-0 tuples forming a suffix of the input, each position holds exactly the tuples tagged with it, in arrival order, although position 0 never copies them |
| CoGroupSpec.SelfJoinPositionsAgree | src/hadoop/cascading/flow/hadoop/HadoopCoGroupClosure.java:201-208 | with self-joins every position shows the same tuples: all of them, in arrival order |
| CoGroupSpec.GroupTuple | src/hadoop/cascading/flow/hadoop/HadoopCoGroupClosure.java:137-153 | the group tuple for given per-position emptiness: with keys of the null tuple's arity, one arity-sized slot per position |
| CoGroupSpec.GroupTupleLength | src/hadoop/cascading/flow/hadoop/HadoopCoGroupClosure.java:137-153 | the group tuple has one keys-sized slot per position |
| CoGroupSpec.GroupTupleAt | src/hadoop/cascading/flow/hadoop/HadoopCoGroupClosure.java:111-153 | the slot of position p holds the keys when p is not empty and all nulls when it is |
| CoGroupSpec.Notify | src/hadoop/cascading/flow/hadoop/HadoopCoGroupClosure.java:87-94 | one listener notification adds one to exactly one of spills written and spills read, the write one being for a write notification, and no counter decreases |
| CoGroupSpec.TallyCounts | src/hadoop/cascading/flow/hadoop/HadoopCoGroupClosure.java:87-94 | spill counters never decrease; spills written plus spills read grow by the number of notifications, and tuples spilled by the sum of the write spill sizes |
| CoGroupSpec.TallyAppend | src/hadoop/cascading/flow/hadoop/HadoopCoGroupClosure.java:87-94 | counting two notification sequences in turn equals counting them together |
| CoGroup.InputIterator.HasNext | src/hadoop/cascading/flow/hadoop/HadoopCoGroupClosure.java:173 | the input has a next tuple exactly when some remain |
| CoGroup.InputIterator.Next | src/hadoop/cascading/flow/hadoop/HadoopCoGroupClosure.java:175 | yields the first remaining index tuple and drops it |
| CoGroup.PassThroughIterator.constructor | src/hadoop/cascading/flow/hadoop/HadoopCoGroupClosure.java:236-240 | the new iterator will yield the current tuple and then every tuple left in the input |
| CoGroup.PassThroughIterator.HasNext | src/hadoop/cascading/flow/hadoop/HadoopCoGroupClosure.java:242-246 | hasNext is false exactly once every tuple has been yielded |
| CoGroup.PassThroughIterator.Next | src/hadoop/cascading/flow/hadoop/HadoopCoGroupClosure.java:248-259 | yields the tuples in input order, reading the input one tuple ahead; once exhausted, next raises NullPointerException on the null value and changes nothing |
| CoGroup.SpillListener.NotifyWriteSpillBegin | src/hadoop/cascading/flow/hadoop/HadoopCoGroupClosure.java:67-89 | adds 1 to spills written and the spill size to tuples spilled |
| CoGroup.SpillListener.NotifyReadSpillBegin | src/hadoop/cascading/flow/hadoop/HadoopCoGroupClosure.java:91-95 | adds 1 to spills read |
| CoGroup.HadoopCoGroupClosure.constructor | src/hadoop/cascading/flow/hadoop/HadoopCoGroupClosure.java:106-119 | the empty tuple has the grouping's arity in nulls; size() is numSelfJoins + 1 with self-joins and the number of inputs without; every position starts empty |
| CoGroup.HadoopCoGroupClosure.InitLists | src/hadoop/cascading/flow/hadoop/HadoopCoGroupClosure.java:196-219 | with self-joins, numSelfJoins + 1 positions all map to one collection; without, one position per input, each with its own collection, position 0 being the pass-through one |
| CoGroup.HadoopCoGroupClosure.CreateListener | src/hadoop/cascading/flow/hadoop/HadoopCoGroupClosure.java:231-234 | a new listener reporting to the task's counters |
| CoGroup.HadoopCoGroupClosure.Size | src/hadoop/cascading/flow/hadoop/HadoopCoGroupClosure.java:121-125 | numSelfJoins + 1 with self-joins, the number of inputs without |
| CoGroup.HadoopCoGroupClosure.GetIterator | src/hadoop/cascading/flow/hadoop/HadoopCoGroupClosure.java:127-134 | fails with "invalid group position" if and only if pos < 0 or pos >= size(); otherwise yields that position's tuples |
| CoGroup.HadoopCoGroupClosure.IsEmpty | src/hadoop/cascading/flow/hadoop/HadoopCoGroupClosure.java:155-159 | fails with an out-of-bounds error exactly when pos is outside [0, size()), since the array is indexed unchecked; otherwise a position is empty exactly when it has no tuple left to yield |
| CoGroup.HadoopCoGroupClosure.CollectionEmpty | src/hadoop/cascading/flow/hadoop/HadoopCoGroupClosure.java:143 | a position's collection is empty exactly when it has no tuple left to yield |
| CoGroup.HadoopCoGroupClosure.Emptiness | src/hadoop/cascading/flow/hadoop/HadoopCoGroupClosure.java:141-143 | the emptiness of positions 0 .. n-1, one flag per position, each true exactly when that position has nothing to yield |
| CoGroup.HadoopCoGroupClosure.SelfJoinAliasing | src/hadoop/cascading/flow/hadoop/HadoopCoGroupClosure.java:201-208 | with self-joins all positions report the same contents and the same emptiness |
| CoGroup.HadoopCoGroupClosure.ClearGroups | src/hadoop/cascading/flow/hadoop/HadoopCoGroupClosure.java:190-194 | every position is empty afterwards |
| CoGroup.HadoopCoGroupClosure.Build | src/hadoop/cascading/flow/hadoop/HadoopCoGroupClosure.java:161-188 | each position holds exactly what `CoGroupSpec.Built` says for this grouping's input, whatever the previous grouping left; position 0 streams from the shared input, and when no pass-through results the input is left exhausted |
| CoGroup.HadoopCoGroupClosure.Drain | src/hadoop/cascading/flow/hadoop/HadoopCoGroupClosure.java:173-187 | the drain loop of build: it ends with each position holding what `CoGroupSpec.Built` assigns it, and with the input exhausted unless position 0 took it over as a pass-through |
| CoGroup.HadoopCoGroupClosure.FileNext | src/hadoop/cascading/flow/hadoop/HadoopCoGroupClosure.java:175-186 | one turn of the drain loop: an index-0 tuple without self-joins hands the rest of the input to position 0 and ends the loop; any other tuple is filed under its own position and consumed |
| CoGroup.HadoopCoGroupClosure.AllFiled | src/hadoop/cascading/flow/hadoop/HadoopCoGroupClosure.java:173-187 | once the whole input has been drained without reaching an index-0 tuple (or with self-joins), every position holds exactly what `CoGroupSpec.Built` assigns it |
| CoGroup.HadoopCoGroupClosure.StreamRest | src/hadoop/cascading/flow/hadoop/HadoopCoGroupClosure.java:180-184 | at the first index-0 tuple without self-joins, position 0 becomes that tuple followed by the rest of the input, and the other positions hold what came before |
| CoGroup.HadoopCoGroupClosure.Add | src/hadoop/cascading/flow/hadoop/HadoopCoGroupClosure.java:186 | the tuple is appended to the collection of its own position |
| CoGroup.HadoopCoGroupClosure.GetGroupTuple | src/hadoop/cascading/flow/hadoop/HadoopCoGroupClosure.java:136-153 | the result is `CoGroupSpec.GroupTuple` of the positions' emptiness: position by position, the keys for a non-empty position and the all-null tuple for an empty one, whose slots `CoGroupSpec.GroupTupleAt` locates |
| SplitReaderSpec.InitiallyComplete | src/hadoop/cascading/tap/hadoop/MultiRecordReaderIterator.java:80-131 | a missing resource or zero splits leave the iterator complete from the start, so hasNext is false and next throws; otherwise it starts incomplete |
| SplitReaderSpec.Initial | src/hadoop/cascading/tap/hadoop/MultiRecordReaderIterator.java:80-102 | initialize: complete exactly when the resource is missing or there are no splits, with no reader created or pending and nothing logged |
| SplitReaderSpec.GetNextReaderStep | src/hadoop/cascading/tap/hadoop/MultiRecordReaderIterator.java:145-169 | getNextReader: nothing changes when complete or a reader is pending; otherwise the log only grows, by at most a close and a creation, currentSplit advances by at most one, exactly when the current split's reader is created, and an incomplete iterator has a reader pending |
| SplitReaderSpec.HasNextStep | src/hadoop/cascading/tap/hadoop/MultiRecordReaderIterator.java:116-121 | hasNext answers true exactly when the iterator is incomplete, and then a reader is pending; the log only grows and currentSplit advances by at most one |
| SplitReaderSpec.NextStep | src/hadoop/cascading/tap/hadoop/MultiRecordReaderIterator.java:128-143 | next fails exactly when complete; otherwise no reader is left pending, the log only grows, and it hands out null exactly when it made the iterator complete |
| SplitReaderSpec.CloseStep | src/hadoop/cascading/tap/hadoop/MultiRecordReaderIterator.java:176-181 | close changes nothing but the log, to which it appends at most one event, a close |
| SplitReaderSpec.GetNextReaderKeepsInv | src/hadoop/cascading/tap/hadoop/MultiRecordReaderIterator.java:145-169 | readers are created for splits 0, 1, … in order, each once, with currentSplit never past the split count, and each previous reader is closed right before the next one is created |
| SplitReaderSpec.CreateKeepsInv | src/hadoop/cascading/tap/hadoop/MultiRecordReaderIterator.java:152-158 | closing the last reader and creating the one for the current split preserves the lifecycle invariant `Inv`: creations in split order, each earlier reader closed before the next is created |
| SplitReaderSpec.CreateLogKeepsInv | src/hadoop/cascading/tap/hadoop/MultiRecordReaderIterator.java:152-158 | the log after closing reader k - 1 and creating reader k still records creations for splits 0 .. k in order, each after its predecessor's close, and closes only of created readers |
| SplitReaderSpec.HasNextKeepsInv | src/hadoop/cascading/tap/hadoop/MultiRecordReaderIterator.java:116-121 | hasNext keeps that invariant |
| SplitReaderSpec.NextKeepsInv | src/hadoop/cascading/tap/hadoop/MultiRecordReaderIterator.java:128-143 | next keeps that invariant |
| SplitReaderSpec.CloseKeepsInv | src/hadoop/cascading/tap/hadoop/MultiRecordReaderIterator.java:176-181 | close keeps that invariant |
| SplitReaderSpec.RunKeepsInv | src/hadoop/cascading/tap/hadoop/MultiRecordReaderIterator.java:116-181 | for any sequence of hasNext, next and close calls, readers are created in split order, each once, each after its predecessor was closed |
| SplitReaderSpec.HasNextIdempotent | src/hadoop/cascading/tap/hadoop/MultiRecordReaderIterator.java:116-148 | a second hasNext without next creates no reader, does not advance and answers the same |
| SplitReaderSpec.CompleteIsFinal | src/hadoop/cascading/tap/hadoop/MultiRecordReaderIterator.java:130-148 | once complete, hasNext is false and changes nothing, and next throws IllegalStateException |
| SplitReaderSpec.RunKeepsComplete | src/hadoop/cascading/tap/hadoop/MultiRecordReaderIterator.java:130-163 | once complete, the iterator stays complete whatever is called |
| SplitReaderSpec.NextMovesOn | src/hadoop/cascading/tap/hadoop/MultiRecordReaderIterator.java:133-158 | next leaves no reader pending, so the following call closes the reader just handed out and creates the next split's reader |
| SplitReaderSpec.NextAfterLastSplit | src/hadoop/cascading/tap/hadoop/MultiRecordReaderIterator.java:128-163 | next without hasNext after the last split returns null and sets complete instead of throwing |
| SplitReaderSpec.CloseClosesLastCreated | src/hadoop/cascading/tap/hadoop/MultiRecordReaderIterator.java:176-181 | close closes the last created reader if one exists and does nothing otherwise |
| SplitReader.MultiRecordReaderIterator.constructor | src/hadoop/cascading/tap/hadoop/MultiRecordReaderIterator.java:72-102 | the state after initialize is `SplitReaderSpec.Initial` |
| SplitReader.MultiRecordReaderIterator.GetNextReader | src/hadoop/cascading/tap/hadoop/MultiRecordReaderIterator.java:145-169 | performs `SplitReaderSpec.GetNextReaderStep` and keeps the invariant |
| SplitReader.MultiRecordReaderIterator.HasNext | src/hadoop/cascading/tap/hadoop/MultiRecordReaderIterator.java:116-121 | performs `SplitReaderSpec.HasNextStep` and keeps the invariant |
| SplitReader.MultiRecordReaderIterator.Next | src/hadoop/cascading/tap/hadoop/MultiRecordReaderIterator.java:128-143 | throws "no more values" exactly when complete, leaving the state alone; otherwise performs `SplitReaderSpec.NextStep` |
| SplitReader.MultiRecordReaderIterator.Close | src/hadoop/cascading/tap/hadoop/MultiRecordReaderIterator.java:176-181 | performs `SplitReaderSpec.CloseStep` and keeps the invariant |
| SplitReader.MultiRecordReaderIterator.MakeReader | src/hadoop/cascading/tap/hadoop/MultiRecordReaderIterator.java:104-109 | creates the reader for the given split |

## Left out

- Logging and diagnostics are not modelled. This covers the `LOG` calls, the every-tenth-spill message and the JVM memory figures in the spill listener, and the trace output of `map` and `reduce`.
- Deserializing the step and the current source (`Util.deserializeBase64`, `Configuration.getRaw`) and `FactoryLoader` are not modelled. The step graph, the current source and the collection factory are inputs.
- The step graph is given as the sequence of pipe nodes that follows a group or a source. The model requires that this sequence ends at a node other than `Each` or `Every`. What the step does when no next element exists is not part of this model.
- The internals of stage elements are not modelled: element constructors, `resolveStack`, `collect`, `open`, `close` and traps. An element is its kind plus its node, and open, collect and close are lifecycle events. What `collect` raises is an input.
- Mapper scopes: the Java loop walks a `Set<Scope>` in its iteration order. The model takes that order as the order of the given sequence.
- Spillable collection internals are not modelled: writing spills to disk, `setSpillListener`, and the `setGrouping` call in `getGroupTuple`. `FalseCollection` and the superclass's `reset`/`makeIterator` are not part of this model. A collection is a `seq<Tuple>`, and the pass-through collection is what its iterator has left.
- CoGroup.HadoopCoGroupClosure.Build requires every tuple it files to carry an index within `size()`. Java would throw ArrayIndexOutOfBoundsException for any other index, and that error path is not modelled.
- CoGroup.HadoopCoGroupClosure.Build: `reset`'s call to the superclass (recording the grouping and the input iterator) is not modelled, so `Build` takes the iterator directly.
- CoGroup.HadoopCoGroupClosure.GetGroupTuple returns a new value. Java clears and refills one `joinedTuple` object that it reuses across calls, so a caller holding an earlier result sees it overwritten. The model does not capture that reuse.
- CoGroup.HadoopCoGroupClosure.constructor takes `numSelfJoins` as a natural number and requires at least one join input. A negative count, or no inputs, would make Java fail on array creation or on `collections[0]`.
- CoGroupSpec.BuiltIsTagged requires that the index-0 tuples of a grouping form a suffix of its input. This is the ordering the code's own comment relies on. `Built` itself follows the code as written for any input.
- Counters are unbounded integers. Hadoop's long counters and the `int` spill size are not wrapped.
- Hadoop `InputFormat`, `getSplits`, `RecordReader` and `JobConf` are abstracted. A tap gives whether its resource exists and its number of splits. Readers are split indices whose lifecycle is an event log.
- Exceptions are not modelled for three calls: `getRecordReader` and a reader's `close` throwing IOException (and the resulting TapException), and `initialize` failing.
- `remove` on the split reader (always UnsupportedOperationException) is not modelled.
- The pass-through iterator's no-op `remove` is not modelled.
- `src/core/cascading/pipe/Join.java` only forwards constructors to `Splice`, which is not part of this model.
- Join strategies that consume the closure are not part of this model.
