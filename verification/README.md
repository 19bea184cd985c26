# Delete queue and aggregation staging buffer

This project models two in-place components of the tantivy search engine library.

**The delete queue** (`src/indexer/delete_queue.rs`) is a broadcast log of timestamped delete operations. It has one producer and many consumers.
- `push` appends an operation to a pending vector.
- `flush` turns the pending vector, when it is non-empty, into a new immutable block. It publishes that block as the queue's latest block.
- Blocks are chained by a `next` cell. The cell starts bound to the queue (`Writer`). `next_block` closes it, once and for good, on the block that the queue's next flush produces.
- A cursor is a (block, position) pair. Its owner moves it with `get`, `advance` and `skip_to`. It crosses block boundaries by resolving the `next` cell lazily.

The model keeps the blocks in an arena held by the `DeleteQueue` class:
- `operations[i]` holds the operations of block `i`.
- `links[i]` holds its `next` cell.
- `lastBlock` is the index of the latest block.

A ghost `log` records every operation pushed, in push order. The queue invariant says:
- the blocks form one linear chain, and only the latest block's cell is still `Writer`;
- every flushed block is non-empty;
- the log is the flushed operations followed by the pending ones.

A cursor's global position, `Index()`, is the number of operations in the blocks before its block plus its position. Every cursor operation is specified against `log` and `Index()`:
- `get` returns `log[Index()]`, or `None` at the end, and does not move.
- `advance` moves exactly one place when an operation exists.
- `skip_to` stops at the first operation whose opstamp is at least the target.

A cursor operation flushes the queue only when the cursor sits at the end of the flushed operations, which is when its block is used up and is the latest block (`delete_queue.rs:230-234`). Each cursor operation states this: the pending vector and the arena change exactly then, and then the pending operations become one new block. This decides what a cursor created afterwards sees.

The queue's own unit test (`delete_queue.rs:287-329`) is replayed on the model as a chain of scenario methods; each of its assertions is an `assert` there.

The comment on `cursor` (`delete_queue.rs:77-80`) says past operations are not accessible. The code places the new cursor at the end of the latest block. A new cursor therefore does see the operations still pending when it was created: the next flush puts them in the following block. It misses only the operations already flushed. The unit test relies on this at lines 296-312. The model follows the code: `Cursor` ensures that the log from the cursor's position on is exactly the pending vector.

**The aggregation staging buffer** (`src/aggregation/buf_collector.rs`) holds a fixed array of `DOC_BLOCK_SIZE` (64) document ids and a count.
- `collect` writes the next slot. When the block fills, it hands the 64 ids downstream in one `collect_block` call and resets the count.
- `flush` hands the staged prefix downstream, resets the count, then flushes downstream.
- `collect_block` bypasses the buffer.

The downstream collector, a trait object in the source, is the class `SegmentCollector`. It may answer any outcome, and it records every call it receives, in order, together with the answer it gave. The buffer keeps a ghost record of the documents collected and of the blocks handed off by `collect` or `flush` that the downstream answered `Ok`. Conservation holds after every call, even a failed one: those blocks, then the staged prefix, are exactly the documents collected.

Every call that reaches the downstream returns the answer recorded for it; a `collect` that only stages its document returns `Ok`. A downstream error in `collect` (the `?` at line 69) is returned and leaves the count at 64. The strict bound `numStagedDocs < 64`, which the next `collect` needs to write in bounds, then no longer holds, so `Collect` promises `Valid()` only when the answer was `Ok`. A downstream error from the block hand-off in `flush` is returned before the count is reset and before the downstream flush is called.

The constructor `DeleteCursor.At` stands for the `DeleteCursor` struct literal at `delete_queue.rs:84-87` and `195-198`. `QueueScenario` runs the scenario methods in the order of the unit test.

## Model

| member | source | states |
|---|---|---|
| DeleteQueue.DeleteQueue.constructor | src/indexer/delete_queue.rs:26-33 | a new queue has no pending operation, no block and an empty log |
| DeleteQueue.DeleteQueue.GetLastBlock | src/indexer/delete_queue.rs:55-75 | returns the latest block; if none exists, creates one empty block whose cell is `Writer` and records it as latest; pending operations and the log are untouched |
| DeleteQueue.DeleteQueue.Cursor | src/indexer/delete_queue.rs:81-88 | the new cursor sits at the end of the latest block; its global position is the number of operations already flushed, so what it will read is exactly the pending operations followed by later pushes |
| DeleteQueue.DeleteQueue.Push | src/indexer/delete_queue.rs:91-97 | appends the operation to the pending vector and to the log; blocks, links and the latest block are unchanged |
| DeleteQueue.DeleteQueue.Flush | src/indexer/delete_queue.rs:112-131 | on an empty pending vector returns `None` and changes nothing; otherwise appends one block holding exactly the pending operations in push order, empties the pending vector, makes the new block the latest and returns its index; the log is preserved |
| DeleteQueue.DeleteQueue.NextBlock | src/indexer/delete_queue.rs:148-180 | a `Closed(b)` cell returns `b` and changes nothing; a `Writer` cell with nothing pending returns `None` and stays `Writer`; otherwise the queue flushes and the cell becomes `Closed` on the new block; a returned block is always the next in the chain, and `None` only happens at the last block with nothing pending; the queue invariant is kept |
| DeleteQueue.ClosedStays | src/indexer/delete_queue.rs:164-177 | a `next` cell is assigned once: while blocks are only appended and the queue invariant holds, a `Closed` cell keeps its block |
| DeleteQueue.AtFlushedEnd | src/indexer/delete_queue.rs:230-234 | since every block after the first is non-empty, a cursor is at the end of the flushed operations exactly when it is at the end of the latest block, the only case in which `load_block_if_required` asks the queue to flush |
| DeleteQueue.OffsetStable | src/indexer/delete_queue.rs:124-129 | appending blocks to the arena moves no existing block's position in the global order |
| DeleteQueue.DeleteCursor.Index | src/indexer/delete_queue.rs:188-191 | a valid cursor's global position never lies beyond the flushed operations |
| DeleteQueue.DeleteCursor.Clone | src/indexer/delete_queue.rs:193-200 | the clone is a new cursor on the same block and position, so it has the same global position |
| DeleteQueue.CursorUnaffected | src/indexer/delete_queue.rs:193-200 | a cursor that was not itself modified keeps its global position while the queue grows, so advancing one clone never changes what another observes |
| DeleteQueue.DeleteCursor.LoadBlockIfRequired | src/indexer/delete_queue.rs:229-245 | the global position does not change; the result is true exactly when an operation exists at that position, and then the in-block position is in bounds; the queue is flushed exactly when the cursor was at the end of the flushed operations, and the pending operations then form one new block |
| DeleteQueue.DeleteCursor.Advance | src/indexer/delete_queue.rs:247-256 | returns true exactly when an operation existed at the cursor, and then moves exactly one place forward in push order; otherwise the cursor stays put; the queue is flushed exactly when the cursor was at the end of the flushed operations |
| DeleteQueue.DeleteCursor.Get | src/indexer/delete_queue.rs:258-266 | returns the logged operation at the cursor's global position, or `None` at the end of the log, without moving the cursor; the queue is flushed exactly when the cursor was at the end of the flushed operations |
| DeleteQueue.DeleteCursor.IsBehindOpstamp | src/indexer/delete_queue.rs:215-220 | true exactly when an operation exists at the cursor and its opstamp is below the target; the cursor does not move; the queue is flushed exactly when the cursor was at the end of the flushed operations |
| DeleteQueue.SkipTarget | src/indexer/delete_queue.rs:203-207 | the stopping point lies at or after the start; every operation passed over has an opstamp below the target; the stop is the end of the log or an operation with opstamp at least the target; a start already at such an operation is not moved |
| DeleteQueue.DeleteCursor.SkipTo | src/indexer/delete_queue.rs:208-213 | the loop leaves the cursor exactly at the stopping point `SkipTarget` defines, with the log unchanged; the queue is flushed exactly when the skip reaches the end of the operations flushed before the call, and then the pending operations form one new block |
| DeleteQueue.ScenarioSetup | src/indexer/delete_queue.rs:296-301 | after two pushes, a cursor and its clone both sit before the first operation |
| DeleteQueue.ScenarioCloneWalk | src/indexer/delete_queue.rs:302-305 | the clone reads opstamps 1 then 2, and the original cursor does not move |
| DeleteQueue.ScenarioTailRead | src/indexer/delete_queue.rs:306-307 | at the end of the log `get` returns `None` and `advance` leaves the cursor in place |
| DeleteQueue.ScenarioLateCursor | src/indexer/delete_queue.rs:309-312 | a cursor created after everything was read reads `None`, then reads the operation pushed afterwards |
| DeleteQueue.ScenarioCloneCatchUp | src/indexer/delete_queue.rs:313-317 | the clone reads the late push, twice with `get`, then reaches the end |
| DeleteQueue.ScenarioSnapshotWalk | src/indexer/delete_queue.rs:320-324 | the original cursor, untouched by its clone, reads opstamps 1 then 2 in order |
| DeleteQueue.ScenarioSnapshotEnd | src/indexer/delete_queue.rs:325-327 | the same cursor then reads opstamp 3 and reaches the end |
| BufCollector.BufAggregationCollector.constructor | src/aggregation/buf_collector.rs:37-43 | starts with no staged document, a zeroed block of `DOC_BLOCK_SIZE` slots, and nothing collected or forwarded |
| BufCollector.BufAggregationCollector.Collect | src/aggregation/buf_collector.rs:60-73 | writes `doc` into the slot at the old count and nowhere else; below 64 it counts it and calls nothing downstream; at 64 it hands exactly the 64 staged documents, in order, to one downstream `collect_block` and returns that call's answer; an `Ok` answer resets the count to 0 and records the block as forwarded; an `Err` answer leaves the count at 64 and the block unrecorded; conservation holds in every case |
| BufCollector.BufAggregationCollector.CollectBlock | src/aggregation/buf_collector.rs:76-84 | forwards `docs` unchanged in one downstream call, returns that call's answer, and leaves the staging block and the count untouched |
| BufCollector.BufAggregationCollector.Flush | src/aggregation/buf_collector.rs:87-95 | hands the staged prefix, possibly empty, downstream as one block; if that call answers `Ok`, resets the count, then flushes downstream and returns the flush's answer; if it answers `Err`, returns `Err` with the count and the staged documents kept and no downstream flush; conservation holds in both cases |

## Left out

- `RwLock`, lock poisoning and the double-checked locking in `get_last_block` and `next_block`: each locked region is one atomic step, because the model is sequential.
- `Arc`/`Weak` reference counting and block reclamation. The latest block is assumed to stay alive, so the `upgrade()` failure at lines 59 and 66 happens only before the first block exists.
- The queue's handle clone (lines 39-45) is not modelled: every cursor refers to the single `DeleteQueue` object.
- Whether an operation is pending or in a block is visible only through the arena fields. The model does not separate a block's allocation from its contents, since a block's operations and cell are stored side by side.
- `BufAggregationCollector`'s `Clone` and `Debug` implementations are not modelled. Neither changes the buffer.
- `add_intermediate_aggregation_result` is a call into the downstream collector and returns nothing the buffer keeps.
- What the downstream collector does with the documents is unknown. It answers any outcome; only the calls it received and its answers are recorded.
- `AggregationsWithAccessor` is passed through unchanged to every downstream call, so it is not a parameter of the model.
- `Weight` evaluation and the `target` of a delete operation are opaque: `DeleteOperation` is generic in its target.
- `AddOperation` and `UserOperation` in `src/indexer/operation.rs` are not used by either component.
- `src/collector/custom_score_top_collector.rs` and `src/indexer/segment_entry.rs` are not part of this model. They only delegate to types not shown here.
- BufCollector.BufAggregationCollector.Collect: requires `numStagedDocs < 64`. The source has no such check and would panic on an out-of-bounds write to slot 64, which can only follow an earlier downstream error.
