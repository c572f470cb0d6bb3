/** Which transaction belongs to which chunk, in every state and over every failure and resumed call: what is recorded,
    what is passed on, and what a resumed call waits for. */
module PipelineBatches {
  import opened Base
  import opened Pieces
  import opened UploadRecord
  import opened Pipeline
  import opened PipelineFlight
  import opened PipelineInvariant
  import opened PipelineSafety
  import opened PipelineSteps

  /** The batch that chunk i was recorded from. */
  function BatchOf(s: System, i: nat): Batch
    requires i < |s.batchOf| && 0 < s.batchOf[i] <= |s.created|
  {
    s.created[s.batchOf[i] - 1]
  }

  /** Every recorded chunk is one of a created batch, and its entry, if it still has one, has that batch's transaction. */
  ghost predicate RecordedFrom(s: System) {
    && |s.batchOf| == |s.chunks|
    && (forall i: nat :: i < |s.chunks| ==> 0 < s.batchOf[i] <= |s.created|)
    && (forall i: nat :: i < |s.chunks| ==> s.chunks[i] in BatchOf(s, i).chunks)
    && (forall i: nat :: i in s.record.preCreated && i < |s.chunks| ==>
          s.record.preCreated[i].tx == BatchOf(s, i).tx)
  }

  /** A pair of the resume list: a recorded chunk and its batch's transaction. */
  ghost predicate PairOk(s: System, e: ChunkWithTx)
    requires RecordedFrom(s)
  {
    var i := e.chunk.index; i < |s.chunks| && s.chunks[i] == e.chunk && e.tx == BatchOf(s, i).tx
  }

  /** The batch the reader is recording or sending is the last one created. */
  ghost predicate ReaderBatch(reader: Reader, created: seq<Batch>) {
    match reader
    case Recording(batch, _, tx, _) => created != [] && created[|created| - 1] == Batch(batch, tx)
    case Sending(batch, tx, _) => created != [] && created[|created| - 1] == Batch(batch, tx)
    case _ => true
  }

  ghost predicate Travelling(cfg: Config, c: Call, created: seq<Batch>) {
    && ReaderBatch(c.reader, created)
    && (forall b :: b in c.queue ==> b in created)
    && |c.queue| <= cfg.channelSize
    && (c.forwarder.Confirming? ==> c.forwarder.batch in created)
  }

  /** A batch is full, or the last of its call. */
  predicate FullOrLast(cfg: Config, reader: Reader) {
    match reader
    case Creating(batch, stop) => |batch| <= cfg.batchSize && (stop || |batch| == cfg.batchSize)
    case Recording(batch, _, _, stop) => |batch| <= cfg.batchSize && (stop || |batch| == cfg.batchSize)
    case Sending(batch, _, stop) => |batch| <= cfg.batchSize && (stop || |batch| == cfg.batchSize)
    case _ => true
  }

  ghost predicate BatchInv(cfg: Config, s: System) {
    && RecordedFrom(s)
    && (forall b :: b in s.created ==> 0 < |b.chunks| <= cfg.batchSize)
    && (s.phase == Running ==>
          && Travelling(cfg, s.call, s.created)
          && FullOrLast(cfg, s.call.reader)
          && (s.call.forwarder.Resuming? ==> forall e :: e in s.call.forwarder.list ==> PairOk(s, e)))
  }

  lemma InitialBatches(cfg: Config)
    ensures BatchInv(cfg, Initial())
  {
  }

  // ---- every step

  /** When nothing is created or recorded, and at most entries are taken away. */
  lemma SameRecorded(s: System, t: System)
    requires RecordedFrom(s) && t.chunks == s.chunks && t.created == s.created && t.batchOf == s.batchOf
    requires forall i :: i in t.record.preCreated ==>
               i in s.record.preCreated && t.record.preCreated[i] == s.record.preCreated[i]
    ensures RecordedFrom(t)
    ensures forall e :: PairOk(s, e) ==> PairOk(t, e)
  {
    forall i: nat | i < |t.chunks|
      ensures 0 < t.batchOf[i] <= |t.created| && BatchOf(t, i) == BatchOf(s, i)
    {
    }
  }

  lemma CreatedMore(s: System, t: System, b: Batch)
    requires RecordedFrom(s) && t.chunks == s.chunks && t.batchOf == s.batchOf && t.record == s.record
    requires t.created == s.created + [b]
    ensures RecordedFrom(t)
    ensures forall e :: PairOk(s, e) ==> PairOk(t, e)
  {
    forall i: nat | i < |t.chunks|
      ensures 0 < t.batchOf[i] <= |t.created| && BatchOf(t, i) == BatchOf(s, i)
    {
    }
  }

  lemma RecordedMore(s: System, t: System, x: Chunk, tx: nat)
    requires RecordedFrom(s) && x.index == |s.chunks| && s.created != []
    requires x in s.created[|s.created| - 1].chunks && tx == s.created[|s.created| - 1].tx
    requires t.chunks == s.chunks + [x] && t.batchOf == s.batchOf + [|s.created|] && t.created == s.created
    requires t.record.preCreated == s.record.preCreated[x.index := ChunkWithTx(x, tx)]
    ensures RecordedFrom(t) && PairOk(t, ChunkWithTx(x, tx))
    ensures forall e :: PairOk(s, e) ==> PairOk(t, e)
  {
    forall i: nat | i < |t.chunks|
      ensures 0 < t.batchOf[i] <= |t.created|
      ensures BatchOf(t, i) == if i < |s.chunks| then BatchOf(s, i) else s.created[|s.created| - 1]
    {
    }
  }

  /** What the reader's actions do to batches on their way. */
  lemma ReaderTravels(cfg: Config, r: Record, c: Call, action: ReaderAction, created: seq<Batch>)
    requires cfg.Valid() && ReaderCanStep(cfg, c, action) && Travelling(cfg, c, created) && FullOrLast(cfg, c.reader)
    requires c.reader.Recording? ==> c.reader.done < |c.reader.batch|
    requires c.reader.Reading? ==> |c.reader.batch| < cfg.batchSize
    ensures var d := ReaderStep(cfg, r, c, action);
            && FullOrLast(cfg, d.reader)
            && (!(action.CreateTx? && action.ok) ==> Travelling(cfg, d, created))
            && (action.CreateTx? && action.ok ==> Travelling(cfg, d, created + [Batch(c.reader.batch, action.tx)]))
            && (d.forwarder.Resuming? ==> d.forwarder == c.forwarder)
  {
    hide Min;
  }

  lemma RecordStepBatches(cfg: Config, s: System)
    requires Inv(cfg, s) && BatchInv(cfg, s) && Enabled(cfg, s, ByReader(RecordChunk))
    ensures RecordedFrom(Do(cfg, s, ByReader(RecordChunk))) && s.call.reader.done < |s.call.reader.batch|
    ensures PairOk(Do(cfg, s, ByReader(RecordChunk)),
                   ChunkWithTx(s.call.reader.batch[s.call.reader.done], s.call.reader.tx))
    ensures forall e :: PairOk(s, e) ==> PairOk(Do(cfg, s, ByReader(RecordChunk)), e)
  {
    hide SplitInv, RecordInv, FlightInv, OrderInv, ListedInv, ForwarderShape, DoneInv, Complete, RecordedFrom, PairOk;
    var x, tx := s.call.reader.batch[s.call.reader.done], s.call.reader.tx;
    RecordsNext(cfg, s.record, s.chunks, s.call);
    RecordedMore(s, Do(cfg, s, ByReader(RecordChunk)), x, tx);
  }

  lemma ReaderShapes(cfg: Config, s: System)
    requires Inv(cfg, s) && s.phase == Running
    ensures s.call.reader.Recording? ==> s.call.reader.done < |s.call.reader.batch|
    ensures s.call.reader.Reading? ==> |s.call.reader.batch| < cfg.batchSize
    ensures s.call.reader.Creating? ==> s.call.reader.batch != []
  {
    hide SplitInv, RecordInv, FlightInv, OrderInv, ListedInv, ForwarderShape, DoneInv, Complete, CoversTo;
  }

  lemma ReaderBatches(cfg: Config, s: System, action: ReaderAction)
    requires cfg.Valid() && Inv(cfg, s) && BatchInv(cfg, s) && Enabled(cfg, s, ByReader(action))
    ensures BatchInv(cfg, Do(cfg, s, ByReader(action)))
    ensures forall e :: PairOk(s, e) ==> PairOk(Do(cfg, s, ByReader(action)), e)
  {
    hide Inv, RecordedFrom, PairOk, Travelling, FullOrLast, ReaderStep;
    var t := Do(cfg, s, ByReader(action));
    ReaderShapes(cfg, s);
    ReaderTravels(cfg, s.record, s.call, action, s.created);
    if action.RecordChunk? {
      RecordStepBatches(cfg, s);
    } else if action.CreateTx? && action.ok {
      var b := Batch(s.call.reader.batch, action.tx);
      CreatedMore(s, t, b);
      CreatedIsFull(cfg, s.call.reader);
      assert forall x :: x in t.created ==> x in s.created || x == b;
    } else {
      SameRecorded(s, t);
    }
  }

  lemma CreatedIsFull(cfg: Config, reader: Reader)
    requires FullOrLast(cfg, reader) && reader.Creating?
    ensures |reader.batch| <= cfg.batchSize
  {
  }

  lemma ForwarderTravels(cfg: Config, r: Record, c: Call, action: ForwarderAction, created: seq<Batch>)
    requires ForwarderCanStep(c, action) && Travelling(cfg, c, created) && FullOrLast(cfg, c.reader)
    ensures var d := ForwarderStep(r, c, action);
            && FullOrLast(cfg, d.reader) && Travelling(cfg, d, created)
            && (d.forwarder.Resuming? ==>
                  if action.List? then c.continuation && d.forwarder.list == Listed(r.preCreated)
                  else c.forwarder.Resuming? && forall e :: e in d.forwarder.list ==> e in c.forwarder.list)
  {
    hide Listed, ReaderBatch, FullOrLast;
  }

  lemma ListedPairs(cfg: Config, s: System)
    requires Inv(cfg, s) && RecordedFrom(s)
    ensures forall e :: e in Listed(s.record.preCreated) ==> PairOk(s, e)
  {
    hide CallInv, Complete, SplitInv, CoversTo, RecordedFrom;
    var pre, list := s.record.preCreated, Listed(s.record.preCreated);
    IndexedInOrder(cfg, s.record, s.chunks);
    forall e | e in list
      ensures PairOk(s, e)
    {
      var k :| 0 <= k < |list| && list[k] == e;
      var i := Sorted(pre.Keys)[k];
      AtKey(pre, s.chunks, s.uploaded, i);
      PairAt(s, i);
    }
  }

  lemma PairAt(s: System, i: nat)
    requires RecordedFrom(s) && i in s.record.preCreated && i < |s.chunks|
    requires s.record.preCreated[i].chunk == s.chunks[i] && s.chunks[i].index == i
    ensures PairOk(s, s.record.preCreated[i])
  {
  }

  lemma ForwarderBatches(cfg: Config, s: System, action: ForwarderAction)
    requires cfg.Valid() && Inv(cfg, s) && BatchInv(cfg, s) && Enabled(cfg, s, ByForwarder(action))
    ensures BatchInv(cfg, Do(cfg, s, ByForwarder(action)))
    ensures forall e :: PairOk(s, e) ==> PairOk(Do(cfg, s, ByForwarder(action)), e)
  {
    hide Inv, RecordedFrom, PairOk, Travelling, FullOrLast, ForwarderStep;
    ForwarderTravels(cfg, s.record, s.call, action, s.created);
    ListedPairs(cfg, s);
    SameRecorded(s, Do(cfg, s, ByForwarder(action)));
  }

  lemma UploaderBatches(cfg: Config, s: System, action: UploaderAction)
    requires BatchInv(cfg, s) && cfg.Valid() && Enabled(cfg, s, ByUploader(action))
    ensures BatchInv(cfg, Do(cfg, s, ByUploader(action)))
    ensures forall e :: PairOk(s, e) ==> PairOk(Do(cfg, s, ByUploader(action)), e)
  {
    hide RecordedFrom, PairOk, FullOrLast, ReaderBatch;
    SameRecorded(s, Do(cfg, s, ByUploader(action)));
  }

  lemma StepBatches(cfg: Config, s: System, step: Step)
    requires Inv(cfg, s) && BatchInv(cfg, s) && Enabled(cfg, s, step)
    ensures BatchInv(cfg, Do(cfg, s, step))
    ensures forall e :: PairOk(s, e) ==> PairOk(Do(cfg, s, step), e)
  {
    hide RecordedFrom, PairOk, RecordInv, SplitInv, CallInv, Complete, ReaderStep, ForwarderStep, UploaderStep;
    match step
    case ByReader(action) => ReaderBatches(cfg, s, action);
    case ByForwarder(action) => ForwarderBatches(cfg, s, action);
    case ByUploader(action) => UploaderBatches(cfg, s, action);
    case _ => SameRecorded(s, Do(cfg, s, step));
  }

  lemma {:induction false} PathBatches(cfg: Config, s: System, steps: seq<Step>, t: System)
    requires cfg.Valid() && Inv(cfg, s) && BatchInv(cfg, s) && Path(cfg, s, steps, t)
    ensures BatchInv(cfg, t)
    decreases |steps|
  {
    hide Inv, BatchInv, Do, Enabled;
    if steps == [] {
    } else {
      StepKeeps(cfg, s, steps[0]);
      StepBatches(cfg, s, steps[0]);
      PathBatches(cfg, Do(cfg, s, steps[0]), steps[1..], t);
    }
  }

  lemma ReachableBatches(cfg: Config, s: System)
    requires Reachable(cfg, s)
    ensures BatchInv(cfg, s)
  {
    hide Inv, BatchInv, Path;
    var steps :| Path(cfg, Initial(), steps, s);
    InitialInv(cfg);
    InitialBatches(cfg);
    PathBatches(cfg, Initial(), steps, s);
  }

  // ---- what holds in every reachable state

  /** Every recorded chunk belongs to a batch whose transaction had been created when it was recorded, and as long as it
      is not uploaded its entry keeps exactly that transaction. */
  lemma TransactionsKept(cfg: Config, s: System, i: nat)
    requires Reachable(cfg, s) && i < |s.chunks|
    ensures i < |s.batchOf| && 0 < s.batchOf[i] <= |s.created|
    ensures var b := s.created[s.batchOf[i] - 1];
            s.chunks[i] in b.chunks && (i in s.record.preCreated ==> s.record.preCreated[i].tx == b.tx)
  {
    hide Travelling, FullOrLast, PairOk;
    ReachableBatches(cfg, s);
  }

  /** A resumed call pairs every chunk it lists with that transaction, and what a call waits for otherwise are the
      transactions of created batches. */
  lemma WaitsForItsTransaction(cfg: Config, s: System)
    requires Reachable(cfg, s) && s.phase == Running
    ensures s.call.forwarder.Resuming? ==> forall e :: e in s.call.forwarder.list ==>
              var i := e.chunk.index;
              && i < |s.chunks| && i < |s.batchOf| && s.chunks[i] == e.chunk
              && 0 < s.batchOf[i] <= |s.created| && e.tx == s.created[s.batchOf[i] - 1].tx
    ensures s.call.forwarder.Confirming? ==> s.call.forwarder.batch in s.created
    ensures forall b :: b in s.call.queue ==> b in s.created
  {
    hide FullOrLast, ReaderBatch;
    ReachableBatches(cfg, s);
  }

  /** The channel of batches never holds more than its capacity, no batch is empty or larger than configured, and one
      that is smaller is the last of its call. */
  lemma BatchesBounded(cfg: Config, s: System)
    requires Reachable(cfg, s)
    ensures s.phase == Running ==> |s.call.queue| <= cfg.channelSize
    ensures forall b :: b in s.created ==> 0 < |b.chunks| <= cfg.batchSize
    ensures s.phase == Running && s.call.reader.Creating? && |s.call.reader.batch| < cfg.batchSize ==> s.call.reader.stop
  {
    hide RecordedFrom, ReaderBatch, PairOk;
    ReachableBatches(cfg, s);
  }

  /** Every chunk recorded in a run was preceded by the creation of its batch's transaction, which the run's steps
      report as successful. */
  lemma RecordedAfterCreation(cfg: Config, steps: seq<Step>, s: System, i: nat)
    requires cfg.Valid() && Path(cfg, Initial(), steps, s) && i < |s.chunks|
    ensures i < |s.batchOf| && 0 < s.batchOf[i] <= |CreatedTxs(steps)| == |s.created|
    ensures s.chunks[i] in s.created[s.batchOf[i] - 1].chunks
    ensures s.created[s.batchOf[i] - 1].tx == CreatedTxs(steps)[s.batchOf[i] - 1]
  {
    hide Path, CreatedTxs, TxsOf, Reachable;
    IsReachable(cfg, steps, s);
    TransactionsKept(cfg, s, i);
    CreatedBySteps(cfg, Initial(), steps, s);
    TxAt(s.created, s.batchOf[i] - 1);
    NothingCreated(CreatedTxs(steps));
  }

  lemma IsReachable(cfg: Config, steps: seq<Step>, s: System)
    requires cfg.Valid() && Path(cfg, Initial(), steps, s)
    ensures Reachable(cfg, s)
  {
    hide Path;
  }

  lemma TxAt(batches: seq<Batch>, i: nat)
    ensures |TxsOf(batches)| == |batches|
    ensures i < |batches| ==> TxsOf(batches)[i] == batches[i].tx
  {
  }

  lemma NothingCreated(txs: seq<nat>)
    ensures TxsOf(Initial().created) + txs == txs
  {
  }
}
