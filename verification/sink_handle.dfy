/**
 The documented contract of a sink handle (SinkHandle.java), the producer-side
 end of a data exchange, as an abstract state machine over an immutable record.
 Blocks are an opaque type parameter: their byte encoding plays no part in the
 contract. The backpressure future of `isFull()` is not modelled; whether
 readers are held is a plain flag.

 The interface documents four operations. Besides them this module has the
 external query-cleanup step that releases held readers, and `Run`, which
 applies a sequence of operations so that lemmas can speak about every
 sequence of calls that follows a given one.
 */
module SinkHandles {
  import opened JavaInt

  /** A destination lane: the single unpartitioned buffer, or a partition numbered by a Java `int`. */
  datatype Lane = Unpartitioned | Partition(index: int32)

  /** Whether the handle is still usable, closed, or aborted. */
  datatype Lifecycle = Live | Closed | Aborted

  /**
   The handle's state: a queue of blocks per lane (an absent lane is an empty
   queue), the no-more-blocks flag, the lifecycle, and whether readers are
   being held blocked.
   */
  datatype SinkHandle<B> = SinkHandle(
    buffers: map<Lane, seq<B>>,
    noMore: bool,
    life: Lifecycle,
    readersBlocked: bool)

  /** The blocks queued on a lane, oldest first. */
  function Buffered<B>(s: SinkHandle<B>, lane: Lane): seq<B>
  {
    if lane in s.buffers then s.buffers[lane] else []
  }

  /** A new handle: nothing queued, accepting blocks, readers not held. */
  function NewSinkHandle<B>(): (s: SinkHandle<B>)
    ensures forall lane :: Buffered(s, lane) == []
    ensures !s.noMore && s.life == Live && !s.readersBlocked
  {
    SinkHandle(map[], false, Live, false)
  }

  /** Queue b at the end of one lane, unless sends are being ignored. */
  function Enqueue<B>(s: SinkHandle<B>, lane: Lane, b: B): SinkHandle<B>
  {
    if s.noMore || s.life != Live then s
    else s.(buffers := s.buffers[lane := Buffered(s, lane) + [b]])
  }

  /**
   `send(tsBlock)`: queue the block on the unpartitioned lane; every other
   lane is untouched. Once no-more-blocks is set the call is ignored.

   The interface does not say what a send does on a handle that was closed or
   aborted without no-more-blocks being set. This model drops it, as for the
   no-more-blocks case; the last ensures clause is that assumption, not a
   documented promise.
   */
  function Send<B>(s: SinkHandle<B>, b: B): (s': SinkHandle<B>)
    ensures !s.noMore && s.life == Live ==> Buffered(s', Unpartitioned) == Buffered(s, Unpartitioned) + [b]
    ensures forall lane :: lane != Unpartitioned ==> Buffered(s', lane) == Buffered(s, lane)
    ensures s.noMore ==> s' == s
    ensures s'.noMore == s.noMore && s'.life == s.life && s'.readersBlocked == s.readersBlocked
    ensures s.life != Live ==> s' == s
  {
    Enqueue(s, Unpartitioned, b)
  }

  /**
   `send(partition, tsBlock)`: queue the block on that partition's lane only.
   Once no-more-blocks is set the call is ignored. The last ensures clause is
   the same closed-or-aborted assumption as for `Send`.
   */
  function SendToPartition<B>(s: SinkHandle<B>, partition: int32, b: B): (s': SinkHandle<B>)
    ensures !s.noMore && s.life == Live ==>
              Buffered(s', Partition(partition)) == Buffered(s, Partition(partition)) + [b]
    ensures forall lane :: lane != Partition(partition) ==> Buffered(s', lane) == Buffered(s, lane)
    ensures s.noMore ==> s' == s
    ensures s'.noMore == s.noMore && s'.life == s.life && s'.readersBlocked == s.readersBlocked
    ensures s.life != Live ==> s' == s
  {
    Enqueue(s, Partition(partition), b)
  }

  /** `setNoMoreTsBlocks()`: from now on every send is ignored; queued blocks stay. */
  function SetNoMoreTsBlocks<B>(s: SinkHandle<B>): (s': SinkHandle<B>)
    ensures s'.noMore
    ensures forall lane :: Buffered(s', lane) == Buffered(s, lane)
    ensures s'.life == s.life && s'.readersBlocked == s.readersBlocked
  {
    s.(noMore := true)
  }

  /**
   `close()`: discard every queued block. Readers are neither held nor
   released by it.

   The interface does not say what closing an aborted handle does. This model
   assumes it stays aborted (readers stay held); that is the lifecycle clause.
   */
  function Close<B>(s: SinkHandle<B>): (s': SinkHandle<B>)
    ensures forall lane :: Buffered(s', lane) == []
    ensures s'.life == (if s.life == Aborted then Aborted else Closed)
    ensures s'.noMore == s.noMore && s'.readersBlocked == s.readersBlocked
  {
    s.(buffers := map[], life := if s.life == Aborted then Aborted else Closed)
  }

  /**
   `abort()`: discard every queued block and hold readers blocked.

   The interface does not say what aborting a closed handle does. This model
   assumes it is aborted like a live one: it holds readers and is marked
   aborted.
   */
  function Abort<B>(s: SinkHandle<B>): (s': SinkHandle<B>)
    ensures forall lane :: Buffered(s', lane) == []
    ensures s'.life == Aborted && s'.readersBlocked
    ensures s'.noMore == s.noMore
  {
    s.(buffers := map[], life := Aborted, readersBlocked := true)
  }

  /**
   The cleanup of a failed query, outside the sink handle: it releases the
   readers an abort held. It is the only step that clears the flag.
   */
  function ReleaseReaders<B>(s: SinkHandle<B>): (s': SinkHandle<B>)
    ensures !s'.readersBlocked
    ensures forall lane :: Buffered(s', lane) == Buffered(s, lane)
    ensures s'.noMore == s.noMore && s'.life == s.life
  {
    s.(readersBlocked := false)
  }

  /** The calls the interface documents, as data. */
  datatype SinkOp<B> =
    | SendOp(block: B)
    | SendToPartitionOp(partition: int32, block: B)
    | SetNoMoreTsBlocksOp
    | CloseOp
    | AbortOp

  function Apply<B>(s: SinkHandle<B>, op: SinkOp<B>): SinkHandle<B>
  {
    match op
    case SendOp(b) => Send(s, b)
    case SendToPartitionOp(p, b) => SendToPartition(s, p, b)
    case SetNoMoreTsBlocksOp => SetNoMoreTsBlocks(s)
    case CloseOp => Close(s)
    case AbortOp => Abort(s)
  }

  /** The state after the calls in ops, first to last. */
  function Run<B>(s: SinkHandle<B>, ops: seq<SinkOp<B>>): SinkHandle<B>
    decreases |ops|
  {
    if |ops| == 0 then s else Run(Apply(s, ops[0]), ops[1..])
  }

  /** A send of either kind. */
  predicate IsSend<B>(op: SinkOp<B>)
  {
    op.SendOp? || op.SendToPartitionOp?
  }

  /** Setting no-more-blocks twice is the same as setting it once. */
  lemma SetNoMoreTsBlocksIdempotent<B>(s: SinkHandle<B>)
    ensures SetNoMoreTsBlocks(SetNoMoreTsBlocks(s)) == SetNoMoreTsBlocks(s)
  {
  }

  /** Once set, no documented call clears the no-more-blocks flag. */
  lemma {:induction false} NoMoreStaysSet<B>(s: SinkHandle<B>, ops: seq<SinkOp<B>>)
    requires s.noMore
    ensures Run(s, ops).noMore
    decreases |ops|
  {
    if |ops| > 0 {
      NoMoreStaysSet(Apply(s, ops[0]), ops[1..]);
    }
  }

  /**
   After no-more-blocks, sends and further no-more-blocks calls change
   nothing at all: every buffer keeps exactly the blocks it had.
   */
  lemma {:induction false} SendsIgnoredAfterNoMore<B>(s: SinkHandle<B>, ops: seq<SinkOp<B>>)
    requires s.noMore
    requires forall i :: 0 <= i < |ops| ==> IsSend(ops[i]) || ops[i].SetNoMoreTsBlocksOp?
    ensures Run(s, ops) == s
    decreases |ops|
  {
    if |ops| > 0 {
      assert Apply(s, ops[0]) == s;
      SendsIgnoredAfterNoMore(s, ops[1..]);
    }
  }

  /**
   After no-more-blocks, whatever is called next, no lane ever holds more
   blocks than it did: each lane keeps its blocks or is emptied.
   */
  lemma {:induction false} NoMoreNeverGrows<B>(s: SinkHandle<B>, ops: seq<SinkOp<B>>, lane: Lane)
    requires s.noMore
    ensures Buffered(Run(s, ops), lane) == Buffered(s, lane) || Buffered(Run(s, ops), lane) == []
    decreases |ops|
  {
    if |ops| > 0 {
      var s1 := Apply(s, ops[0]);
      NoMoreNeverGrows(s1, ops[1..], lane);
      if Buffered(s1, lane) == [] {
        NoMoreDrainedStays(s1, ops[1..], lane);
      }
    }
  }

  lemma {:induction false} NoMoreDrainedStays<B>(s: SinkHandle<B>, ops: seq<SinkOp<B>>, lane: Lane)
    requires s.noMore && Buffered(s, lane) == []
    ensures Buffered(Run(s, ops), lane) == []
    decreases |ops|
  {
    if |ops| > 0 {
      NoMoreDrainedStays(Apply(s, ops[0]), ops[1..], lane);
    }
  }

  /**
   Readers are held exactly when they were already held or some call in the
   sequence is an abort.
   */
  lemma {:induction false} ReadersHeldIffAborted<B>(s: SinkHandle<B>, ops: seq<SinkOp<B>>)
    ensures Run(s, ops).readersBlocked <==> s.readersBlocked || exists k :: 0 <= k < |ops| && ops[k].AbortOp?
    decreases |ops|
  {
    if |ops| > 0 {
      ReadersHeldIffAborted(Apply(s, ops[0]), ops[1..]);
      assert forall k :: 0 <= k < |ops| - 1 ==> ops[1..][k] == ops[k + 1];
      if ops[0].AbortOp? {
        assert Apply(s, ops[0]).readersBlocked;
      } else {
        assert Apply(s, ops[0]).readersBlocked == s.readersBlocked;
      }
    }
  }

  /** Starting from a new handle, readers end up held exactly when some call was an abort. */
  lemma NewHandleHoldsReadersOnlyAfterAbort<B>(ops: seq<SinkOp<B>>)
    ensures Run(NewSinkHandle<B>(), ops).readersBlocked <==> exists k :: 0 <= k < |ops| && ops[k].AbortOp?
  {
    ReadersHeldIffAborted(NewSinkHandle<B>(), ops);
  }

  /** Readers held by an abort stay held through every later sink-handle call. */
  lemma {:induction false} ReadersStayBlocked<B>(s: SinkHandle<B>, ops: seq<SinkOp<B>>)
    requires s.readersBlocked
    ensures Run(s, ops).readersBlocked
    decreases |ops|
  {
    if |ops| > 0 {
      ReadersStayBlocked(Apply(s, ops[0]), ops[1..]);
    }
  }

  /** Close and abort empty the buffers alike; only abort holds readers (and marks the handle aborted). */
  lemma CloseAndAbortDiffer<B>(s: SinkHandle<B>)
    requires !s.readersBlocked
    ensures forall lane :: Buffered(Close(s), lane) == Buffered(Abort(s), lane) == []
    ensures Close(s).noMore == Abort(s).noMore
    ensures !Close(s).readersBlocked && Abort(s).readersBlocked
  {
  }

  /**
   A closed or aborted handle stays closed or aborted, and an aborted one
   stays aborted, whatever is called next.
   */
  lemma {:induction false} EndedStaysEnded<B>(s: SinkHandle<B>, ops: seq<SinkOp<B>>)
    requires s.life != Live
    ensures Run(s, ops).life != Live
    ensures s.life == Aborted ==> Run(s, ops).life == Aborted
    decreases |ops|
  {
    if |ops| > 0 {
      EndedStaysEnded(Apply(s, ops[0]), ops[1..]);
    }
  }

  /**
   After an abort, whatever is called next, no lane holds a block and readers
   stay held. This uses the assumption that sends to an ended handle are
   dropped.
   */
  lemma AbortIsFinal<B>(s: SinkHandle<B>, ops: seq<SinkOp<B>>, lane: Lane)
    ensures Buffered(Run(Abort(s), ops), lane) == []
    ensures Run(Abort(s), ops).readersBlocked
    ensures Run(Abort(s), ops).life == Aborted
    decreases |ops|
  {
    EndedDrainedStays(Abort(s), ops, lane);
    ReadersStayBlocked(Abort(s), ops);
    EndedStaysEnded(Abort(s), ops);
  }

  /** After a close, whatever is called next, no lane holds a block (same assumption). */
  lemma CloseIsFinal<B>(s: SinkHandle<B>, ops: seq<SinkOp<B>>, lane: Lane)
    ensures Buffered(Run(Close(s), ops), lane) == []
  {
    EndedDrainedStays(Close(s), ops, lane);
  }

  lemma {:induction false} EndedDrainedStays<B>(s: SinkHandle<B>, ops: seq<SinkOp<B>>, lane: Lane)
    requires s.life != Live && Buffered(s, lane) == []
    ensures Buffered(Run(s, ops), lane) == []
    decreases |ops|
  {
    if |ops| > 0 {
      EndedDrainedStays(Apply(s, ops[0]), ops[1..], lane);
    }
  }

  /** Within one partition, blocks queue in the order they were sent. */
  lemma PartitionKeepsSendOrder<B>(s: SinkHandle<B>, p: int32, a: B, b: B)
    requires !s.noMore && s.life == Live
    ensures Buffered(SendToPartition(SendToPartition(s, p, a), p, b), Partition(p))
            == Buffered(s, Partition(p)) + [a, b]
  {
  }
}
