/** The delete queue: a single-producer, multi-consumer broadcast channel of
    delete operations.

    Pending operations accumulate in a vector; a flush turns them into an
    immutable block that is chained after the previous one. Blocks live in an
    arena owned by the queue and are named by their index in it. The arena
    keeps the two halves of a block side by side: its operations, fixed when
    the block is created, and its `next` cell, the single-assignment link to
    the following block, which is either still bound to the queue (`Writer`)
    or `Closed` on the index of the next block. A cursor is a (block,
    position) pair that its owner advances on its own.

    Each locked region of the queue is one atomic step. Blocks are
    never reclaimed: the latest block is assumed to stay alive. */
module DeleteQueue {
  import opened Wrappers
  import opened Seqs
  import opened Operation

  /** The state behind a block's `next` lock. */
  datatype InnerNextBlock = Writer | Closed(block: nat)

  /** Number of operations held by the blocks before block `i`: the global
      position of the first operation of block `i`. */
  ghost function Offset<W>(operations: seq<seq<DeleteOperation<W>>>, i: nat): nat
    requires i <= |operations|
  {
    |Flatten(operations[..i])|
  }

  /** Appending blocks moves no existing block in the global order. */
  lemma OffsetStable<W>(before: seq<seq<DeleteOperation<W>>>, after: seq<seq<DeleteOperation<W>>>, i: nat)
    requires before <= after && i <= |before|
    ensures Offset(after, i) == Offset(before, i)
  {
    assert after[..i] == before[..i];
  }

  /** In a chain whose blocks after the first are non-empty, a position lies
      at the end of all the blocks exactly when it is the end of the last
      block. */
  lemma {:induction false} AtFlushedEnd<W>(operations: seq<seq<DeleteOperation<W>>>, block: nat, pos: nat)
    requires block < |operations| && pos <= |operations[block]|
    requires forall i :: 0 < i < |operations| ==> operations[i] != []
    ensures Offset(operations, block) + pos == |Flatten(operations)| <==>
      block == |operations| - 1 && pos == |operations[block]|
  {
    FlattenStep(operations, block);
    if block == |operations| - 1 {
      assert operations[..block + 1] == operations;
    } else {
      FlattenWithin(operations, block + 1);
    }
  }

  /** Where `skip_to(target)` leaves a cursor at global position `from` of
      `log`: the first position at or after `from` whose operation has an
      opstamp of at least `target`, or the end of the log. */
  function SkipTarget<W>(log: seq<DeleteOperation<W>>, from: nat, target: Opstamp): (r: nat)
    requires from <= |log|
    ensures from <= r <= |log|
    ensures forall k :: from <= k < r ==> log[k].opstamp < target
    ensures r == |log| || log[r].opstamp >= target
    ensures from < |log| && log[from].opstamp >= target ==> r == from
    decreases |log| - from
  {
    if from < |log| && log[from].opstamp < target then SkipTarget(log, from + 1, target) else from
  }

  class DeleteQueue<W> {
    /** Operations pushed and not yet flushed into a block (`writer`). */
    var pending: seq<DeleteOperation<W>>
    /** The operations of each block of the arena, in creation order. */
    var operations: seq<seq<DeleteOperation<W>>>
    /** The `next` cell of each block of the arena. */
    var links: seq<InnerNextBlock>
    /** The latest block (`last_block`), if one was created. */
    var lastBlock: Option<nat>
    /** Every operation ever pushed, in push order. */
    ghost var log: seq<DeleteOperation<W>>

    /** The blocks form one linear chain, each linked to the next, and only the
        latest block, the one `lastBlock` designates, is still bound to the
        queue. Every block but the first (the empty block that the first
        cursor creates) came from a flush and is non-empty. The log is the
        flushed operations followed by the pending ones. */
    ghost predicate Valid()
      reads this
    {
      |links| == |operations| &&
      (lastBlock == None <==> operations == []) &&
      (lastBlock.Some? ==> lastBlock.value == |operations| - 1) &&
      (forall i :: 0 <= i < |links| - 1 ==> links[i] == Closed(i + 1)) &&
      (links != [] ==> links[|links| - 1] == Writer) &&
      (forall i :: 0 < i < |operations| ==> operations[i] != []) &&
      log == Flushed() + pending
    }

    /** The operations already materialised into blocks, in push order. */
    ghost function Flushed(): seq<DeleteOperation<W>>
      reads this
    {
      Flatten(operations)
    }

    constructor ()
      ensures Valid()
      ensures pending == [] && operations == [] && links == [] && lastBlock == None && log == []
    {
      pending := [];
      operations := [];
      links := [];
      lastBlock := None;
      log := [];
    }

    /** The latest block, creating an empty one bound to the queue when no
        block exists yet. */
    method GetLastBlock() returns (b: nat)
      requires Valid()
      modifies this
      ensures Valid() && pending == old(pending) && log == old(log)
      ensures b == |operations| - 1 && lastBlock == Some(b)
      ensures old(lastBlock).Some? ==>
        b == old(lastBlock).value && operations == old(operations) && links == old(links)
      ensures old(lastBlock).None? ==> operations == [[]] && links == [Writer]
    {
      if lastBlock.Some? {
        return lastBlock.value;
      }
      FlattenSnoc<DeleteOperation<W>>([], []);
      operations := [[]];
      links := [Writer];
      lastBlock := Some(0);
      b := 0;
    }

    /** A new cursor placed at the end of the latest block: it will see every
        operation that is still pending now and every later push, and none of
        the operations already flushed. */
    method Cursor() returns (c: DeleteCursor<W>)
      requires Valid()
      modifies this
      ensures Valid() && pending == old(pending) && log == old(log)
      ensures old(operations) <= operations
      ensures fresh(c) && c.queue == this && c.Valid()
      ensures c.block == |operations| - 1 && c.pos == |operations[c.block]|
      ensures c.Index() == |Flushed()| == |old(Flushed())|
      ensures log[c.Index()..] == pending
    {
      var last := GetLastBlock();
      c := new DeleteCursor.At(this, last, |operations[last]|);
      FlattenStep(operations, last);
      assert operations[..last + 1] == operations;
    }

    /** Appends a delete operation to the pending buffer; no block is created. */
    method Push(op: DeleteOperation<W>)
      requires Valid()
      modifies this
      ensures Valid()
      ensures pending == old(pending) + [op] && log == old(log) + [op]
      ensures operations == old(operations) && links == old(links) && lastBlock == old(lastBlock)
    {
      pending := pending + [op];
      log := log + [op];
    }

    /** Moves the pending operations, if any, into a new latest block. On its
        own it leaves the previous latest block's cell `Writer`, so the chain
        is broken until that cell is closed on the new block: like the private
        `flush`, it is called only from `NextBlock`, which closes the cell, and
        it promises no `Valid()`. */
    method Flush() returns (r: Option<nat>)
      modifies this
      ensures log == old(log) && Flushed() + pending == old(Flushed() + pending)
      ensures old(pending) == [] ==>
        r == None && pending == old(pending) &&
        operations == old(operations) && links == old(links) && lastBlock == old(lastBlock)
      ensures old(pending) != [] ==>
        r == Some(|old(operations)|) && lastBlock == r && pending == [] &&
        operations == old(operations) + [old(pending)] && links == old(links) + [Writer]
    {
      if pending == [] {
        return None;
      }
      var deleteOperations := pending;
      pending := [];
      FlattenSnoc(operations, deleteOperations);
      operations := operations + [deleteOperations];
      links := links + [Writer];
      lastBlock := Some(|operations| - 1);
      r := lastBlock;
    }

    /** `next_block` of block `b`: a closed cell yields its block again; a cell
        still bound to the queue flushes it and, if a block came out, is
        closed on that block for good. */
    method NextBlock(b: nat) returns (r: Option<nat>)
      requires Valid() && b < |operations|
      modifies this
      ensures Valid() && log == old(log)
      ensures old(operations) <= operations
      ensures old(links[b]).Closed? ==>
        r == Some(old(links[b]).block) && pending == old(pending) &&
        operations == old(operations) && links == old(links) && lastBlock == old(lastBlock)
      ensures old(links[b]).Writer? && old(pending) == [] ==>
        r == None && pending == old(pending) &&
        operations == old(operations) && links == old(links) && lastBlock == old(lastBlock)
      ensures old(links[b]).Writer? && old(pending) != [] ==>
        r == Some(|old(operations)|) && lastBlock == r && pending == [] &&
        operations == old(operations) + [old(pending)] &&
        links == old(links)[b := Closed(|old(operations)|)] + [Writer]
      ensures r.Some? ==> r.value == b + 1 && links[b] == Closed(r.value)
      ensures r.None? ==> b == |operations| - 1 && pending == []
    {
      match links[b]
      case Closed(next) =>
        r := Some(next);
      case Writer =>
        r := Flush();
        if r.Some? {
          links := links[b := Closed(r.value)];
        }
    }
  }

  class DeleteCursor<W> {
    /** The queue whose arena holds the blocks this cursor walks. */
    const queue: DeleteQueue<W>
    /** The current block (`block`). */
    var block: nat
    /** The position inside the current block (`pos`). */
    var pos: nat

    ghost predicate Valid()
      reads this, queue
    {
      queue.Valid() && block < |queue.operations| && pos <= |queue.operations[block]|
    }

    /** The position of the cursor in the queue's global push order; it never
        lies beyond what was flushed. */
    ghost function Index(): (r: nat)
      reads this, queue
      requires Valid()
      ensures r <= |queue.Flushed()|
    {
      FlattenWithin(queue.operations, block);
      Offset(queue.operations, block) + pos
    }

    constructor At(queue: DeleteQueue<W>, block: nat, pos: nat)
      ensures this.queue == queue && this.block == block && this.pos == pos
    {
      this.queue := queue;
      this.block := block;
      this.pos := pos;
    }

    /** A cursor at the same block and position, that advances independently. */
    method Clone() returns (c: DeleteCursor<W>)
      requires Valid()
      ensures fresh(c) && c.queue == queue && c.block == block && c.pos == pos
      ensures c.Valid() && c.Index() == Index()
    {
      c := new DeleteCursor.At(queue, block, pos);
    }

    /** When the current block is used up, moves to the next block, flushing
        the queue if needed. Answers whether an operation is now under the
        cursor; the cursor's global position does not change. */
    method LoadBlockIfRequired() returns (ok: bool)
      requires Valid()
      modifies this, queue
      ensures Valid() && queue.log == old(queue.log)
      ensures old(queue.operations) <= queue.operations
      ensures Index() == old(Index())
      ensures ok == (Index() < |queue.log|)
      ensures ok ==> pos < |queue.operations[block]|
      ensures queue.pending ==
        if old(Index()) == |old(queue.Flushed())| then [] else old(queue.pending)
      ensures queue.operations ==
        if old(Index()) == |old(queue.Flushed())| && old(queue.pending) != []
        then old(queue.operations) + [old(queue.pending)] else old(queue.operations)
    {
      AtFlushedEnd(queue.operations, block, pos);
      if pos >= |queue.operations[block]| {
        ghost var before := queue.operations;
        var next := queue.NextBlock(block);
        match next
        case Some(b) =>
          OffsetStable(before, queue.operations, block);
          FlattenStep(queue.operations, block);
          FlattenAt(queue.operations, b, 0);
          block, pos := b, 0;
          ok := true;
        case None =>
          FlattenStep(queue.operations, block);
          assert queue.operations[..block + 1] == queue.operations;
          ok := false;
      } else {
        FlattenAt(queue.operations, block, pos);
        ok := true;
      }
    }

    /** Moves one operation forward in push order when there is one. */
    method Advance() returns (ok: bool)
      requires Valid()
      modifies this, queue
      ensures Valid() && queue.log == old(queue.log)
      ensures old(queue.operations) <= queue.operations
      ensures ok == (old(Index()) < |queue.log|)
      ensures Index() == if ok then old(Index()) + 1 else old(Index())
      ensures queue.pending ==
        if old(Index()) == |old(queue.Flushed())| then [] else old(queue.pending)
      ensures queue.operations ==
        if old(Index()) == |old(queue.Flushed())| && old(queue.pending) != []
        then old(queue.operations) + [old(queue.pending)] else old(queue.operations)
    {
      ok := LoadBlockIfRequired();
      if ok {
        pos := pos + 1;
      }
    }

    /** The operation under the cursor, without moving it. */
    method Get() returns (r: Option<DeleteOperation<W>>)
      requires Valid()
      modifies this, queue
      ensures Valid() && queue.log == old(queue.log)
      ensures old(queue.operations) <= queue.operations
      ensures Index() == old(Index())
      ensures r == if Index() < |queue.log| then Some(queue.log[Index()]) else None
      ensures queue.pending ==
        if old(Index()) == |old(queue.Flushed())| then [] else old(queue.pending)
      ensures queue.operations ==
        if old(Index()) == |old(queue.Flushed())| && old(queue.pending) != []
        then old(queue.operations) + [old(queue.pending)] else old(queue.operations)
    {
      var ok := LoadBlockIfRequired();
      if ok {
        FlattenAt(queue.operations, block, pos);
        r := Some(queue.operations[block][pos]);
      } else {
        r := None;
      }
    }

    /** Whether the operation under the cursor has an opstamp below `target`. */
    method IsBehindOpstamp(target: Opstamp) returns (behind: bool)
      requires Valid()
      modifies this, queue
      ensures Valid() && queue.log == old(queue.log)
      ensures old(queue.operations) <= queue.operations
      ensures Index() == old(Index())
      ensures behind == (Index() < |queue.log| && queue.log[Index()].opstamp < target)
      ensures queue.pending ==
        if old(Index()) == |old(queue.Flushed())| then [] else old(queue.pending)
      ensures queue.operations ==
        if old(Index()) == |old(queue.Flushed())| && old(queue.pending) != []
        then old(queue.operations) + [old(queue.pending)] else old(queue.operations)
    {
      var op := Get();
      behind := match op
        case Some(operation) => operation.opstamp < target
        case None => false;
    }

    /** Skips the operations whose opstamp is below `target`, stopping at the
        first one with an opstamp of at least `target` or at the end. */
    method SkipTo(target: Opstamp)
      requires Valid()
      modifies this, queue
      ensures Valid() && queue.log == old(queue.log)
      ensures old(queue.operations) <= queue.operations
      ensures Index() == SkipTarget(queue.log, old(Index()), target)
      ensures queue.pending ==
        if Index() >= |old(queue.Flushed())| then [] else old(queue.pending)
      ensures queue.operations ==
        if Index() >= |old(queue.Flushed())| && old(queue.pending) != []
        then old(queue.operations) + [old(queue.pending)] else old(queue.operations)
    {
      var behind := IsBehindOpstamp(target);
      while behind
        invariant Valid() && queue.log == old(queue.log)
        invariant old(queue.operations) <= queue.operations
        invariant old(Index()) <= Index() <= |queue.log|
        invariant SkipTarget(queue.log, Index(), target) == SkipTarget(queue.log, old(Index()), target)
        invariant behind == (Index() < |queue.log| && queue.log[Index()].opstamp < target)
        invariant queue.pending ==
          if Index() >= |old(queue.Flushed())| then [] else old(queue.pending)
        invariant queue.operations ==
          if Index() >= |old(queue.Flushed())| && old(queue.pending) != []
          then old(queue.operations) + [old(queue.pending)] else old(queue.operations)
        decreases |queue.log| - Index()
      {
        var _ := Advance();
        behind := IsBehindOpstamp(target);
      }
    }
  }

  /** A `next` cell is assigned once: as long as blocks are only appended and
      the queue invariant holds, a cell that was `Closed` stays closed on the
      same block, so every later `NextBlock` on it returns that block. */
  twostate lemma ClosedStays<W>(q: DeleteQueue<W>, b: nat)
    requires old(q.Valid()) && q.Valid() && old(q.operations) <= q.operations
    requires b < |old(q.links)| && old(q.links[b]).Closed?
    ensures q.links[b] == old(q.links[b])
  {
  }

  /** A cursor that another cursor's calls did not touch keeps its global
      position: cursors advance independently of each other. */
  twostate lemma CursorUnaffected<W>(c: DeleteCursor<W>)
    requires old(c.Valid()) && c.queue.Valid()
    requires unchanged(c) && old(c.queue.operations) <= c.queue.operations
    ensures c.Valid() && c.Index() == old(c.Index())
  {
    OffsetStable(old(c.queue.operations), c.queue.operations, c.block);
  }

  /* The queue's unit test, replayed on the model in five parts. */

  /** Two pushes, then a cursor and a clone of it, both before the first
      pushed operation. */
  method ScenarioSetup() returns (queue: DeleteQueue<()>, snapshot: DeleteCursor<()>, it: DeleteCursor<()>)
    ensures fresh(queue) && fresh(snapshot) && fresh(it)
    ensures queue.log == [DeleteOperation(1, ()), DeleteOperation(2, ())]
    ensures snapshot.queue == queue && it.queue == queue && snapshot != it
    ensures snapshot.Valid() && snapshot.Index() == 0
    ensures it.Valid() && it.Index() == 0
  {
    queue := new DeleteQueue<()>();
    queue.Push(DeleteOperation(1, ()));
    queue.Push(DeleteOperation(2, ()));
    snapshot := queue.Cursor();
    it := snapshot.Clone();
  }

  /** The clone reads both operations in push order. */
  method ScenarioCloneWalk(queue: DeleteQueue<()>, snapshot: DeleteCursor<()>, it: DeleteCursor<()>)
    requires queue.log == [DeleteOperation(1, ()), DeleteOperation(2, ())]
    requires snapshot.queue == queue && it.queue == queue && snapshot != it
    requires snapshot.Valid() && snapshot.Index() == 0
    requires it.Valid() && it.Index() == 0
    modifies queue, it
    ensures queue.log == old(queue.log)
    ensures snapshot.Valid() && snapshot.Index() == 0
    ensures it.Valid() && it.Index() == 2
  {
    var op := it.Get();
    assert op == Some(DeleteOperation(1, ()));
    var _ := it.Advance();
    op := it.Get();
    assert op == Some(DeleteOperation(2, ()));
    var _ := it.Advance();
    CursorUnaffected(snapshot);
  }

  /** At the tail the clone finds nothing and stays put. */
  method ScenarioTailRead(queue: DeleteQueue<()>, snapshot: DeleteCursor<()>, it: DeleteCursor<()>)
    requires queue.log == [DeleteOperation(1, ()), DeleteOperation(2, ())]
    requires snapshot.queue == queue && it.queue == queue && snapshot != it
    requires snapshot.Valid() && snapshot.Index() == 0
    requires it.Valid() && it.Index() == 2
    modifies queue, it
    ensures queue.log == old(queue.log)
    ensures snapshot.Valid() && snapshot.Index() == 0
    ensures it.Valid() && it.Index() == 2
  {
    var op := it.Get();
    assert op == None;
    var moved := it.Advance();
    assert !moved;
    CursorUnaffected(snapshot);
  }

  /** A cursor created at the tail reads nothing until the next push, and
      then reads the pushed operation; the existing cursors stay where they
      are. */
  method ScenarioLateCursor(queue: DeleteQueue<()>, snapshot: DeleteCursor<()>, it: DeleteCursor<()>)
    requires queue.log == [DeleteOperation(1, ()), DeleteOperation(2, ())]
    requires snapshot.queue == queue && it.queue == queue && snapshot != it
    requires snapshot.Valid() && snapshot.Index() == 0
    requires it.Valid() && it.Index() == 2
    modifies queue
    ensures queue.log == [DeleteOperation(1, ()), DeleteOperation(2, ()), DeleteOperation(3, ())]
    ensures snapshot.Valid() && snapshot.Index() == 0
    ensures it.Valid() && it.Index() == 2
  {
    var snapshot2 := queue.Cursor();
    var op := snapshot2.Get();
    assert op == None;
    queue.Push(DeleteOperation(3, ()));
    op := snapshot2.Get();
    assert op == Some(DeleteOperation(3, ()));
    CursorUnaffected(snapshot);
    CursorUnaffected(it);
  }

  /** The clone reads the late push; `get` does not move it. */
  method ScenarioCloneCatchUp(queue: DeleteQueue<()>, snapshot: DeleteCursor<()>, it: DeleteCursor<()>)
    requires queue.log == [DeleteOperation(1, ()), DeleteOperation(2, ()), DeleteOperation(3, ())]
    requires snapshot.queue == queue && it.queue == queue && snapshot != it
    requires snapshot.Valid() && snapshot.Index() == 0
    requires it.Valid() && it.Index() == 2
    modifies queue, it
    ensures queue.log == old(queue.log)
    ensures snapshot.Valid() && snapshot.Index() == 0
  {
    var op := it.Get();
    assert op == Some(DeleteOperation(3, ()));
    op := it.Get();
    assert op == Some(DeleteOperation(3, ()));
    var _ := it.Advance();
    op := it.Get();
    assert op == None;
    CursorUnaffected(snapshot);
  }

  /** The original cursor, untouched by its clone, reads the first two
      operations in push order. */
  method ScenarioSnapshotWalk(queue: DeleteQueue<()>, snapshot: DeleteCursor<()>)
    requires queue.log == [DeleteOperation(1, ()), DeleteOperation(2, ()), DeleteOperation(3, ())]
    requires snapshot.queue == queue && snapshot.Valid() && snapshot.Index() == 0
    modifies queue, snapshot
    ensures snapshot.Valid() && snapshot.Index() == 2 && queue.log == old(queue.log)
  {
    var op := snapshot.Get();
    assert op == Some(DeleteOperation(1, ()));
    var _ := snapshot.Advance();
    op := snapshot.Get();
    assert op == Some(DeleteOperation(2, ()));
    var _ := snapshot.Advance();
  }

  /** It then reads the late push and reaches the end. */
  method ScenarioSnapshotEnd(queue: DeleteQueue<()>, snapshot: DeleteCursor<()>)
    requires queue.log == [DeleteOperation(1, ()), DeleteOperation(2, ()), DeleteOperation(3, ())]
    requires snapshot.queue == queue && snapshot.Valid() && snapshot.Index() == 2
    modifies queue, snapshot
    ensures snapshot.Valid() && snapshot.Index() == 3 && queue.log == old(queue.log)
  {
    var op := snapshot.Get();
    assert op == Some(DeleteOperation(3, ()));
    var _ := snapshot.Advance();
    op := snapshot.Get();
    assert op == None;
  }

  /** The whole unit test, in order. */
  method QueueScenario()
  {
    var queue, snapshot, it := ScenarioSetup();
    ScenarioCloneWalk(queue, snapshot, it);
    ScenarioTailRead(queue, snapshot, it);
    ScenarioLateCursor(queue, snapshot, it);
    ScenarioCloneCatchUp(queue, snapshot, it);
    ScenarioSnapshotWalk(queue, snapshot);
    ScenarioSnapshotEnd(queue, snapshot);
  }
}
