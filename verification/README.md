# Count merge and sink-handle contract, in Dafny

This project models two pieces of the MPP query engine's exchange and operator layer.

- **The count-merge operator** (`CountMergeOperator`). It pulls one block from each child operator and reduces the partial counts into one result block. The kind of the first child picks the mode:
  - **Flat sum:** one row with timestamp 0 and a single INT32 total.
  - **Grouped by level:** one row per TEXT key, with the INT32 count for that key summed over every row of every child. Every row has timestamp 0.

  The operator also has a one-shot `hasNext()`/`isFinished()` flag.
- **The sink-handle contract** (`SinkHandle`). This is the producer end of an exchange. It has per-partition buffers plus one unpartitioned buffer and a no-more-blocks flag. `close()` discards buffered blocks. `abort()` also discards them, and in addition holds readers blocked until an external cleanup step releases them.

Files:

- `java_int.dfy` (module `JavaInt`): Java `int` arithmetic. `Wrap` narrows an unbounded integer to 32-bit two's complement, and `Add` is Java `+` on `int`. Overflow wraps modulo 2^32. There is no no-overflow precondition.
- `ts_block.dfy` (module `TsBlocks`) models result blocks: declared column types, plus rows of (time, values). It also has the reads the operator performs (`GetInt`, `GetText`). When the source's read would throw, the model returns an `Err` value instead.
- `count_merge.dfy` (module `CountMerge`) models the operator itself:
  - The reference folds are `Readings`/`FlatResult` for flat mode and `AllEntries`/`Accumulate`/`GroupedCounts` for grouped mode. Their meaning is given in terms of the exact sums `Sum` and `KeyTotal`.
  - The methods follow the Java loops and are proved to agree with the reference folds.
  - `EmitCounts` emits the grouped rows in an arbitrary order, standing for `HashMap` iteration order.
  - `LiteralRowLoop` models the inner loop of lines 85-88 as written: the guard on `j`, the reads of row `j`, the `put`, and the update clause `i++` applied to the loop variables.
- `sink_handle.dfy` (module `SinkHandles`) models the sink handle as an immutable record `SinkHandle<B>`:
  - `buffers: map<Lane, seq<B>>`. Here `Lane = Unpartitioned | Partition(int32)`, so the default lane can never collide with a partition number.
  - `noMore`
  - `life` (Live/Closed/Aborted)
  - `readersBlocked`

  There is one pure function per documented operation, each with a frame ("nothing else changes") in its contract. `Run` applies a sequence of operations, so that lemmas can speak about every call sequence that follows a given call.

A child operator is represented by its kind plus the result of its single `next()` call: a block, or a failure that the merge propagates unchanged. Children are pulled once each, in list order. The methods return the pull order as `pulled`.

Behaviour the code fixes that is easy to get wrong:

- **An empty child list.** `next()` sets `isFinished`, then reads `children.get(0)` to pick the mode (CountMergeOperator.java:58-59). On an empty list that read fails with an index error, so there is no zero-count row. `Next` models that failure. `FlatResultOfNoChildren` shows that only the flat-mode helper, called on its own, yields 0.
- **`hasNext()` before the first `next()`.** `hasNext()` returns `!isFinished` (CountMergeOperator.java:102-104), and the field starts out false. So `hasNext()` is true before the first `next()` and false after it. `Create` and `CreateThenNext` state this.

Two sink-handle cases are assumptions, because the interface comments (SinkHandle.java:48-54) do not cover them:

- **`abort()` on a closed handle.** `Abort` treats it like an abort of a live handle: readers are held and the handle is marked aborted.
- **`close()` on an aborted handle.** `Close` keeps the handle aborted and readers held.

## Model

| member | source | states |
|---|---|---|
| JavaInt.Wrap | server/src/main/java/org/apache/iotdb/db/mpp/operator/schema/CountMergeOperator.java:67-71 | A Java `int` result is the unique 32-bit value congruent to the exact value modulo 2^32, and equals it when it fits |
| JavaInt.Add | server/src/main/java/org/apache/iotdb/db/mpp/operator/schema/CountMergeOperator.java:71 | `totalCount += count` is congruent to the exact sum modulo 2^32, and is exact when no overflow occurs |
| JavaInt.AddOfWrap | server/src/main/java/org/apache/iotdb/db/mpp/operator/schema/CountMergeOperator.java:67-71 | A running total kept with wrapping `int` addition always equals the wrap of the exact total |
| TsBlocks.GetIntWellFormed | server/src/main/java/org/apache/iotdb/db/mpp/operator/schema/CountMergeOperator.java:70 | On a well-formed block, `getColumn(c).getInt(p)` succeeds exactly for an existing position in an INT32 column, and returns that cell |
| TsBlocks.GetTextWellFormed | server/src/main/java/org/apache/iotdb/db/mpp/operator/schema/CountMergeOperator.java:86 | On a well-formed block, `getBinary(p)` succeeds exactly for an existing position in a TEXT column, and returns that cell's text |
| CountMerge.Create | server/src/main/java/org/apache/iotdb/db/mpp/operator/schema/CountMergeOperator.java:40-49 | A new operator keeps its children, and before any `next()` `hasNext()` is true and `isFinished()` is false |
| CountMerge.Next | server/src/main/java/org/apache/iotdb/db/mpp/operator/schema/CountMergeOperator.java:56-63 | `next()` always marks the operator finished. An empty child list fails with an index error. A first child of the node-time-series-count kind selects grouped mode; any other kind selects flat mode. Children are pulled once each, in order. On failure the last child pulled is the one that failed, and every earlier child was read successfully |
| CountMerge.CreateThenNext | server/src/main/java/org/apache/iotdb/db/mpp/operator/schema/CountMergeOperator.java:57-58 | `hasNext()`/`isFinished()` are true/false before one `next()` and false/true after it, whatever the output |
| CountMerge.ReadingsMeaning | server/src/main/java/org/apache/iotdb/db/mpp/operator/schema/CountMergeOperator.java:68-71 | The flat readings succeed exactly when every child's pull and its column-0, position-0 read succeed, and then list those counts in child order |
| CountMerge.ReadingsPrefixFails | server/src/main/java/org/apache/iotdb/db/mpp/operator/schema/CountMergeOperator.java:68-71 | The first failing child's failure is the failure of the whole flat merge; later children make no difference |
| CountMerge.FlatBlock | server/src/main/java/org/apache/iotdb/db/mpp/operator/schema/CountMergeOperator.java:73-76 | The flat output is well formed, has one INT32 column and exactly one row, and holds time 0 and the total |
| CountMerge.FlatResultOfCounts | server/src/main/java/org/apache/iotdb/db/mpp/operator/schema/CountMergeOperator.java:65-77 | When every child yields a count, flat mode yields one row holding the Java `int` wrap of the exact sum of those counts |
| CountMerge.FlatResultOfFirstFailure | server/src/main/java/org/apache/iotdb/db/mpp/operator/schema/CountMergeOperator.java:67-72 | When a child's pull or read fails, flat mode fails with the failure of the first such child, whatever the later children hold |
| CountMerge.FlatResultOfNoChildren | server/src/main/java/org/apache/iotdb/db/mpp/operator/schema/CountMergeOperator.java:65-77 | The flat-mode helper over no children yields a single row holding 0 |
| CountMerge.FlatResultExample | server/src/main/java/org/apache/iotdb/db/mpp/operator/schema/CountMergeOperator.java:65-77 | Children yielding 5, 7 and 2 give one row holding 14 |
| CountMerge.NextWithoutGroupByLevel | server/src/main/java/org/apache/iotdb/db/mpp/operator/schema/CountMergeOperator.java:65-77 | The Java flat loop computes exactly `FlatResult`. It pulls children in order, all of them on success, and on failure stops at the failing child, after every earlier child read successfully |
| CountMerge.BlockEntriesMeaning | server/src/main/java/org/apache/iotdb/db/mpp/operator/schema/CountMergeOperator.java:85-87 | A block's (key, count) entries are read in position order, one per row, and the reads succeed exactly when every row's read does |
| CountMerge.AllEntriesMeaning | server/src/main/java/org/apache/iotdb/db/mpp/operator/schema/CountMergeOperator.java:83-84 | The grouped merge fails exactly when some child's pull or row read fails |
| CountMerge.AccumulateCounts | server/src/main/java/org/apache/iotdb/db/mpp/operator/schema/CountMergeOperator.java:82-90 | The count map holds exactly the keys of the input rows. Each key's count is the `int` wrap of the sum of that key's counts over all rows, and an absent key starts at 0 |
| CountMerge.KeyTotalAbsent | server/src/main/java/org/apache/iotdb/db/mpp/operator/schema/CountMergeOperator.java:88 | A key that occurs in no row totals 0, the `getOrDefault` starting value |
| CountMerge.GroupedCounts | server/src/main/java/org/apache/iotdb/db/mpp/operator/schema/CountMergeOperator.java:79-90 | Grouped mode's map has exactly the keys seen in any child's rows, each with the wrapped total of its counts, or else the first failure |
| CountMerge.AllEntriesConcat | server/src/main/java/org/apache/iotdb/db/mpp/operator/schema/CountMergeOperator.java:83-89 | The entries of two child lists, one after the other, are the entries of their concatenation |
| CountMerge.KeyTotalConcat | server/src/main/java/org/apache/iotdb/db/mpp/operator/schema/CountMergeOperator.java:88 | A key's exact total over two entry lists is the sum of its totals over each list |
| CountMerge.AccumulateSwap | server/src/main/java/org/apache/iotdb/db/mpp/operator/schema/CountMergeOperator.java:82-90 | Accumulating two entry lists in either order gives the same count map |
| CountMerge.GroupedCountsOrderIndependent | server/src/main/java/org/apache/iotdb/db/mpp/operator/schema/CountMergeOperator.java:82-97 | Swapping two groups of children changes neither whether the grouped merge fails nor the count map it yields |
| CountMerge.EmitCounts | server/src/main/java/org/apache/iotdb/db/mpp/operator/schema/CountMergeOperator.java:91-98 | The grouped output is well formed with a TEXT, INT32 schema. It has exactly one row per key of the map, each row holding time 0, the key and its count, in some order |
| CountMerge.AccumulateBlock | server/src/main/java/org/apache/iotdb/db/mpp/operator/schema/CountMergeOperator.java:85-89 | The intended inner loop puts every row of the block into the map exactly once, in position order, or stops with the first failing row read |
| CountMerge.NextWithGroupByLevel | server/src/main/java/org/apache/iotdb/db/mpp/operator/schema/CountMergeOperator.java:79-99 | The Java grouped loop, with the intended row index, lists exactly `GroupedCounts`, or fails exactly as it does. It pulls children in order and stops at the first failing child |
| CountMerge.GroupedCountsExample | server/src/main/java/org/apache/iotdb/db/mpp/operator/schema/CountMergeOperator.java:79-99 | Child A yielding ("d1",3),("d2",1) and child B yielding ("d1",2) gives {d1: 5, d2: 1} |
| CountMerge.LiteralRowLoopNeverExits | server/src/main/java/org/apache/iotdb/db/mpp/operator/schema/CountMergeOperator.java:85-88 | As written, the inner loop never changes `j`. For a block with at least one row whose row-0 reads succeed, every iteration re-reads and re-puts row 0, and the guard still holds after any number of iterations |
| SinkHandles.Send | server/src/main/java/org/apache/iotdb/db/mpp/buffer/SinkHandle.java:30-34 | `send(b)` appends b to the unpartitioned lane only, and every other lane is unchanged. After no-more-blocks the call changes nothing |
| SinkHandles.SendToPartition | server/src/main/java/org/apache/iotdb/db/mpp/buffer/SinkHandle.java:36-40 | `send(p, b)` appends b to partition p's lane only, and every other lane is unchanged. After no-more-blocks the call changes nothing |
| SinkHandles.SetNoMoreTsBlocks | server/src/main/java/org/apache/iotdb/db/mpp/buffer/SinkHandle.java:42-46 | Sets the no-more-blocks flag and keeps every buffered block, the lifecycle, and the readers' state |
| SinkHandles.Close | server/src/main/java/org/apache/iotdb/db/mpp/buffer/SinkHandle.java:48-49 | Every lane is emptied. The no-more-blocks flag and the readers' state are unchanged. An aborted handle stays aborted, which is an assumption |
| SinkHandles.Abort | server/src/main/java/org/apache/iotdb/db/mpp/buffer/SinkHandle.java:51-55 | Every lane is emptied, readers are held blocked, and the handle is aborted. The no-more-blocks flag is unchanged. Aborting a closed handle works the same way, which is an assumption |
| SinkHandles.ReleaseReaders | server/src/main/java/org/apache/iotdb/db/mpp/buffer/SinkHandle.java:52-53 | The external cleanup of a failed query releases held readers and changes nothing else |
| SinkHandles.SetNoMoreTsBlocksIdempotent | server/src/main/java/org/apache/iotdb/db/mpp/buffer/SinkHandle.java:42-46 | Setting no-more-blocks twice is the same as setting it once |
| SinkHandles.NoMoreStaysSet | server/src/main/java/org/apache/iotdb/db/mpp/buffer/SinkHandle.java:42-46 | Once set, no sequence of documented calls clears the no-more-blocks flag |
| SinkHandles.SendsIgnoredAfterNoMore | server/src/main/java/org/apache/iotdb/db/mpp/buffer/SinkHandle.java:30-46 | After no-more-blocks, any sequence of sends of either kind leaves the handle exactly as it was |
| SinkHandles.NoMoreNeverGrows | server/src/main/java/org/apache/iotdb/db/mpp/buffer/SinkHandle.java:42-55 | After no-more-blocks, under any later calls, each lane keeps its blocks or is emptied, and never gains a block |
| SinkHandles.ReadersHeldIffAborted | server/src/main/java/org/apache/iotdb/db/mpp/buffer/SinkHandle.java:51-55 | Under any sequence of calls, readers end up held exactly when they already were or one of the calls is an `abort()` |
| SinkHandles.NewHandleHoldsReadersOnlyAfterAbort | server/src/main/java/org/apache/iotdb/db/mpp/buffer/SinkHandle.java:51-55 | A new handle, empty and accepting blocks, ends up holding readers exactly when some later call is an `abort()` |
| SinkHandles.ReadersStayBlocked | server/src/main/java/org/apache/iotdb/db/mpp/buffer/SinkHandle.java:51-55 | No sequence of sink-handle calls releases held readers; only the external cleanup does |
| SinkHandles.CloseAndAbortDiffer | server/src/main/java/org/apache/iotdb/db/mpp/buffer/SinkHandle.java:48-55 | `close()` and `abort()` leave the same (empty) buffers and the same no-more-blocks flag. Only `abort()` holds readers |
| SinkHandles.EndedStaysEnded | server/src/main/java/org/apache/iotdb/db/mpp/buffer/SinkHandle.java:48-55 | A closed or aborted handle never becomes live again, and an aborted one stays aborted |
| SinkHandles.AbortIsFinal | server/src/main/java/org/apache/iotdb/db/mpp/buffer/SinkHandle.java:51-55 | After `abort()`, under any later calls, every lane stays empty and readers stay held. This relies on the send assumption below |
| SinkHandles.CloseIsFinal | server/src/main/java/org/apache/iotdb/db/mpp/buffer/SinkHandle.java:48-49 | After `close()`, under any later calls, every lane stays empty. This relies on the send assumption below |
| SinkHandles.PartitionKeepsSendOrder | server/src/main/java/org/apache/iotdb/db/mpp/buffer/SinkHandle.java:36-40 | On a live handle, two sends to one partition queue their blocks in send order |

**Send on an ended handle.** The interface does not say what `send` does on a closed or aborted handle when no-more-blocks was never set. `Send` and `SendToPartition` drop such a send. This is an assumption: it is stated in a separate `ensures` clause of each, and `AbortIsFinal` and `CloseIsFinal` rely on it. Nothing else does.

## Left out

- `SinkHandle.isFull()` and its `ListenableFuture`, and the backpressure and wake-up signalling behind it. These are concurrency. Reader blocking is modelled only as the `readersBlocked` flag.
- The `ByteBuffer` encoding of the blocks sent to a sink handle. Blocks are an opaque type parameter.
- Concurrent callers of a sink handle. The model is sequential: one call at a time.
- `getOperatorContext()`, `OperatorContext` and `PlanNodeId`. These are opaque pass-through values.
- `TsBlockBuilder` and `Binary` internals. A block is a schema plus a sequence of rows, and a TEXT cell holds its string directly.
- The order in which `HashMap.forEach` visits keys. `EmitCounts` picks keys in an arbitrary order, and its contract holds for every order.
- A child operator's internal work. Each child is reduced to the result of its one `next()` call.
- Floating-point cells. They are kept as raw bits and never read.
- The exact failure conditions of `getInt` and `getBinary`. They come from the block and column classes, which are not part of this model. `GetInt` and `GetText` assume a read fails exactly on a missing column or position or on a column of the wrong type. Null cells are not modelled.
- The implementation classes behind the `SinkHandle` interface. They are not part of this model, so only the documented contract is modelled.

## Findings

| source | as written | input that shows it | evidently intended | confidence | as-written member | corrected member |
|---|---|---|---|---|---|---|
| server/src/main/java/org/apache/iotdb/db/mpp/operator/schema/CountMergeOperator.java:85 | The inner loop's update is `i++`, so `j` stays 0 and the guard `j < tsBlock.getPositionCount()` never becomes false | Grouped mode with any child whose block has at least one row whose row-0 reads succeed (TEXT key in column 0, INT32 count in column 1), e.g. child A yielding ("d1",3): the loop re-reads and re-adds that row 0 forever | `j++`: visit every row of every child's block exactly once | high (not executed) | CountMerge.LiteralRowLoopNeverExits | CountMerge.AccumulateBlock |
