/** The aggregation collector that stages document ids in a fixed block of
    `DOC_BLOCK_SIZE` slots and hands them to a downstream collector one block
    at a time. */
module BufCollector {
  import opened Seqs

  /** A document id is an unsigned 32-bit integer. */
  newtype DocId = x: int | 0 <= x < 0x1_0000_0000

  const DOC_BLOCK_SIZE: nat := 64

  /** The outcome of a collector call: success, or an error that the caller
      propagates. */
  datatype Outcome = Ok | Err

  /** A call received by the downstream collector, with the outcome it
      answered. */
  datatype Call = BlockCall(docs: seq<DocId>, answer: Outcome) | FlushCall(answer: Outcome)

  /** The downstream segment collector, a trait object in the source. Its
      behaviour is not part of this model: it may answer any outcome, and it
      records every call it receives, in order, with the answer it gave. */
  class SegmentCollector {
    ghost var calls: seq<Call>

    constructor ()
      ensures calls == []
    {
      calls := [];
    }

    method CollectBlock(docs: seq<DocId>) returns (r: Outcome)
      modifies this
      ensures calls == old(calls) + [BlockCall(docs, r)]
    {
      r :| true;
      calls := calls + [BlockCall(docs, r)];
    }

    method Flush() returns (r: Outcome)
      modifies this
      ensures calls == old(calls) + [FlushCall(r)]
    {
      r :| true;
      calls := calls + [FlushCall(r)];
    }
  }

  class BufAggregationCollector {
    /** The downstream collector (`collector`). */
    const collector: SegmentCollector
    /** The staging block (`staged_docs`). */
    const stagedDocs: array<DocId>
    /** How many slots of the staging block are in use (`num_staged_docs`). */
    var numStagedDocs: nat
    /** Every document id passed to `collect`, in order. */
    ghost var collected: seq<DocId>
    /** Every block that this buffer forwarded from `collect` or `flush` and
        that the downstream collector accepted, in order. */
    ghost var forwarded: seq<seq<DocId>>

    /** Conservation: the accepted blocks followed by the staged prefix are
        exactly the documents collected so far. This holds after every call,
        even one that failed downstream. */
    ghost predicate Conserved()
      reads this, stagedDocs
    {
      stagedDocs.Length == DOC_BLOCK_SIZE &&
      numStagedDocs <= DOC_BLOCK_SIZE &&
      Flatten(forwarded) + stagedDocs[..numStagedDocs] == collected
    }

    /** Between successful calls at least one slot is free, so the next
        `collect` writes within the block. */
    ghost predicate Valid()
      reads this, stagedDocs
    {
      Conserved() && numStagedDocs < DOC_BLOCK_SIZE
    }

    /** The documents waiting in the staging block. */
    ghost function Staged(): seq<DocId>
      reads this, stagedDocs
      requires Conserved()
    {
      stagedDocs[..numStagedDocs]
    }

    constructor (collector: SegmentCollector)
      ensures Valid() && this.collector == collector && fresh(stagedDocs)
      ensures numStagedDocs == 0 && collected == [] && forwarded == []
      ensures forall i :: 0 <= i < stagedDocs.Length ==> stagedDocs[i] == 0
    {
      this.collector := collector;
      numStagedDocs := 0;
      stagedDocs := new DocId[DOC_BLOCK_SIZE](_ => 0);
      collected := [];
      forwarded := [];
    }

    /** Stages `doc` in the next free slot. When that fills the block, the
        whole block goes downstream and, if the downstream accepts it, the
        block is emptied; an error leaves the block full. */
    method Collect(doc: DocId) returns (r: Outcome)
      requires Valid()
      modifies this, stagedDocs, collector
      ensures Conserved() && collected == old(collected) + [doc]
      ensures stagedDocs[..] == old(stagedDocs[..])[old(numStagedDocs) := doc]
      ensures old(numStagedDocs) + 1 < DOC_BLOCK_SIZE ==>
        r == Ok && numStagedDocs == old(numStagedDocs) + 1 &&
        Staged() == old(Staged()) + [doc] &&
        forwarded == old(forwarded) && collector.calls == old(collector.calls)
      ensures old(numStagedDocs) + 1 == DOC_BLOCK_SIZE ==>
        collector.calls == old(collector.calls) + [BlockCall(old(Staged()) + [doc], r)] &&
        (r == Ok ==> numStagedDocs == 0 && forwarded == old(forwarded) + [old(Staged()) + [doc]]) &&
        (r == Err ==> numStagedDocs == DOC_BLOCK_SIZE && forwarded == old(forwarded))
      ensures r == Ok ==> Valid()
    {
      ghost var staged, slots := stagedDocs[..numStagedDocs], stagedDocs[..];
      stagedDocs[numStagedDocs] := doc;
      assert stagedDocs[..] == slots[numStagedDocs := doc];
      assert stagedDocs[..numStagedDocs + 1] == staged + [doc];
      numStagedDocs := numStagedDocs + 1;
      assert Flatten(forwarded) + (staged + [doc]) == collected + [doc];
      collected := collected + [doc];
      if numStagedDocs == stagedDocs.Length {
        var block := stagedDocs[..numStagedDocs];
        r := collector.CollectBlock(block);
        if r == Err {
          return;
        }
        FlattenSnoc(forwarded, block);
        forwarded := forwarded + [block];
        numStagedDocs := 0;
        assert stagedDocs[..numStagedDocs] == [];
      }
      r := Ok;
    }

    /** Hands `docs` straight to the downstream collector, leaving the staging
        block as it is: such documents may reach downstream before documents
        staged earlier. */
    method CollectBlock(docs: seq<DocId>) returns (r: Outcome)
      modifies collector
      ensures collector.calls == old(collector.calls) + [BlockCall(docs, r)]
      ensures unchanged(this) && unchanged(stagedDocs)
    {
      r := collector.CollectBlock(docs);
    }

    /** Hands the staged prefix, possibly empty, downstream as one block, empties
        the staging block, then flushes the downstream collector. An error from
        the block hand-off stops there with the block kept. */
    method Flush() returns (r: Outcome)
      requires Conserved()
      modifies this, collector
      ensures Conserved() && collected == old(collected)
      ensures
        || (numStagedDocs == 0 && Valid() &&
            forwarded == old(forwarded) + [old(Staged())] &&
            collector.calls == old(collector.calls) + [BlockCall(old(Staged()), Ok), FlushCall(r)])
        || (r == Err && numStagedDocs == old(numStagedDocs) &&
            forwarded == old(forwarded) &&
            collector.calls == old(collector.calls) + [BlockCall(old(Staged()), Err)])
    {
      var block := stagedDocs[..numStagedDocs];
      r := collector.CollectBlock(block);
      if r == Err {
        return;
      }
      FlattenSnoc(forwarded, block);
      forwarded := forwarded + [block];
      numStagedDocs := 0;
      r := collector.Flush();
    }
  }
}
