/** Where the chunks of a running call are, and how each action moves them. */
module PipelineFlight {
  import opened Base
  import opened Pieces
  import opened UploadRecord
  import opened Pipeline

  /** Read into a batch, but not yet recorded. */
  function Fresh(reader: Reader): seq<Chunk> {
    match reader
    case Reading(batch) => batch
    case Creating(batch, _) => batch
    case Recording(batch, done, _, _) => if done <= |batch| then batch[done..] else []
    case _ => []
  }

  /** Recorded, but not yet sent on. */
  function Kept(reader: Reader): seq<Chunk> {
    match reader
    case Recording(batch, done, _, _) => if done <= |batch| then batch[..done] else []
    case Sending(batch, _, _) => batch
    case _ => []
  }

  function InQueue(queue: seq<Batch>): seq<Chunk> {
    if queue == [] then [] else queue[0].chunks + InQueue(queue[1..])
  }

  function Pending(forwarder: Forwarder): seq<Chunk> {
    match forwarder
    case Resuming(list, _) => ChunksOf(list)
    case Confirming(batch) => batch.chunks
    case Forwarding(chunks) => chunks
    case _ => []
  }

  function InHand(uploader: Uploader): seq<Chunk> {
    if uploader.Uploading? then [uploader.chunk] else []
  }

  /** All chunks on their way to the uploader, the next one first. */
  function InFlight(c: Call): seq<Chunk> {
    InHand(c.uploader) + Pending(c.forwarder) + InQueue(c.queue) + Kept(c.reader)
  }

  lemma {:induction false} InQueueSnoc(queue: seq<Batch>, b: Batch)
    ensures InQueue(queue + [b]) == InQueue(queue) + b.chunks
  {
    if queue == [] {
      assert InQueue([b]) == b.chunks + InQueue([]);
    } else {
      InQueueSnoc(queue[1..], b);
      assert (queue + [b])[1..] == queue[1..] + [b];
    }
  }

  lemma Recorded1(batch: seq<Chunk>, done: nat, tx: nat, stop: bool)
    requires done < |batch|
    ensures var before := Recording(batch, done, tx, stop);
            var after := AfterRecording(batch, done + 1, tx, stop);
            && Fresh(before) == [batch[done]] + Fresh(after)
            && Kept(after) == Kept(before) + [batch[done]]
  {
  }

  predicate Drops(action: ForwarderAction) {
    action == ConfirmResumed(false) || action == Confirm(false) || action.ForwarderQuits?
  }

  lemma KeepsNone(batch: seq<Chunk>, tx: nat, stop: bool)
    ensures Kept(AfterBatch(batch, stop)) == [] && Kept(AfterSend(stop)) == []
    ensures Kept(AfterRecording(batch, 0, tx, stop)) == []
  {
  }

  function ReadBatch(cfg: Config, c: Call, action: ReaderAction): seq<Chunk>
    requires cfg.Valid() && c.reader.Reading? && action.Read?
  {
    if c.pos >= |cfg.file| then c.reader.batch else
    var n := Min(cfg.bufferSize, |cfg.file| - c.pos);
    c.reader.batch
    + [Chunk(c.next, cfg.file[c.pos..c.pos + n], action.cid, action.rawDataSize, action.encodedSize)]
  }

  lemma ReadMoves(cfg: Config, c: Call, action: ReaderAction)
    requires cfg.Valid() && c.reader.Reading? && action.Read?
    ensures var d := ReadNext(cfg, c, action); InFlight(d) == InFlight(c)
  {
    hide InQueue, Pending, InHand, AfterBatch;
    KeepsNone(c.reader.batch, 0, true);
    KeepsNone(ReadBatch(cfg, c, action), 0, false);
  }

  lemma RecordMoves(cfg: Config, r: Record, c: Call)
    requires cfg.Valid() && ReaderCanStep(cfg, c, RecordChunk)
    ensures InFlight(ReaderStep(cfg, r, c, RecordChunk)) == InFlight(c) + [c.reader.batch[c.reader.done]]
  {
    hide InQueue, Pending, InHand, Kept, Fresh, AfterRecording;
    Recorded1(c.reader.batch, c.reader.done, c.reader.tx, c.reader.stop);
    Regroup(InHand(c.uploader) + Pending(c.forwarder) + InQueue(c.queue), Kept(c.reader), [c.reader.batch[c.reader.done]]);
  }

  lemma SendMoves(cfg: Config, r: Record, c: Call, action: ReaderAction)
    requires cfg.Valid() && ReaderCanStep(cfg, c, action) && (action.Send? || action.HandOff?)
    ensures InFlight(ReaderStep(cfg, r, c, action)) == InFlight(c)
  {
    hide InQueue, InHand, AfterSend;
    KeepsNone([], 0, c.reader.stop);
    InQueueEmpty();
    InQueueSnoc(c.queue, Batch(c.reader.batch, c.reader.tx));
    Regroup(InHand(c.uploader) + Pending(c.forwarder), InQueue(c.queue), c.reader.batch);
  }

  /** Recording puts one more chunk on its way; no other action of the reader changes the chunks on their way,
      except that giving up a send drops those not yet sent. */
  lemma ReaderMoves(cfg: Config, r: Record, c: Call, action: ReaderAction)
    requires cfg.Valid() && ReaderCanStep(cfg, c, action)
    ensures var d := ReaderStep(cfg, r, c, action);
            && (action.RecordChunk? ==> InFlight(d) == InFlight(c) + [c.reader.batch[c.reader.done]])
            && (action.ReaderQuits? ==> InFlight(c) == InFlight(d) + Kept(c.reader))
            && (!action.RecordChunk? && !action.ReaderQuits? ==> InFlight(d) == InFlight(c))
  {
    hide InQueue, Pending, InHand, AfterRecording, AfterSend, ReadNext;
    match action
    case Read(_, _, _, _) => ReadMoves(cfg, c, action);
    case RecordChunk => RecordMoves(cfg, r, c);
    case Send => SendMoves(cfg, r, c, action);
    case HandOff => SendMoves(cfg, r, c, action);
    case CreateTx(ok, tx) => KeepsNone(c.reader.batch, tx, c.reader.stop);
    case _ =>
  }

  lemma InQueueEmpty()
    ensures InQueue([]) == []
  {
  }

  lemma Regroup(a: seq<Chunk>, b: seq<Chunk>, c: seq<Chunk>)
    ensures a + (b + c) == a + b + c
  {
  }

  lemma HeadFirst(list: seq<ChunkWithTx>)
    requires list != []
    ensures ChunksOf(list) == [list[0].chunk] + ChunksOf(list[1..])
    ensures Pending(AfterResumed(list[1..])) == ChunksOf(list[1..])
  {
  }

  lemma ChunksFirst(chunks: seq<Chunk>)
    ensures Pending(AfterForwarded(chunks)) == chunks
  {
  }

  lemma HandOver(p: seq<Chunk>, q: seq<Chunk>, x: Chunk, rest: seq<Chunk>)
    requires p == [x] + rest
    ensures [x] + rest + q == [] + p + q
  {
  }

  lemma PassMoves(r: Record, c: Call, action: ForwarderAction)
    requires ForwarderCanStep(c, action) && (action.SendResumed? || action.Forward?)
    ensures InFlight(ForwarderStep(r, c, action)) == InFlight(c)
  {
    hide InQueue, AfterResumed, AfterForwarded, Listed, Kept, ChunksOf;
    var d := ForwarderStep(r, c, action);
    if action.SendResumed? {
      HeadFirst(c.forwarder.list);
    } else {
      ChunksFirst(c.forwarder.chunks[1..]);
      assert c.forwarder.chunks == [c.forwarder.chunks[0]] + c.forwarder.chunks[1..];
    }
    HandOver(Pending(c.forwarder), InQueue(c.queue), d.uploader.chunk, Pending(d.forwarder));
  }

  /** The resume list comes before everything else; after that the forwarder passes chunks on in order, and
      only when it fails does it drop those it holds. */
  lemma ForwarderMoves(r: Record, c: Call, action: ForwarderAction)
    requires ForwarderCanStep(c, action)
    requires action.List? ==> InHand(c.uploader) == []
    ensures var d := ForwarderStep(r, c, action);
            && (action.List? ==> InFlight(d) == d.listed + InFlight(c))
            && (Drops(action) ==> InFlight(d) == InHand(c.uploader) + InQueue(c.queue) + Kept(c.reader))
            && (!action.List? && !Drops(action) ==> InFlight(d) == InFlight(c))
  {
    hide InQueue, AfterResumed, AfterForwarded, Listed, Kept, ChunksOf, InHand;
    match action
    case List => ListMoves(r, c);
    case SendResumed => PassMoves(r, c, action);
    case Receive => ReceiveMoves(r, c);
    case Confirm(ok) => ChunksFirst(c.forwarder.batch.chunks);
    case Forward => PassMoves(r, c, action);
    case _ =>
  }

  lemma ResumedPending(list: seq<ChunkWithTx>)
    ensures Pending(AfterResumed(list)) == ChunksOf(list)
  {
  }

  lemma NothingPending()
    ensures Pending(Listing) == Pending(Receiving) == []
  {
  }

  lemma ListMoves(r: Record, c: Call)
    requires c.forwarder.Listing? && InHand(c.uploader) == []
    ensures var d := ForwarderStep(r, c, List); InFlight(d) == d.listed + InFlight(c)
  {
    hide InQueue, Listed, Kept, Pending, AfterResumed, ChunksOf;
    var d := ForwarderStep(r, c, List);
    ResumedPending(if c.continuation then Listed(r.preCreated) else []);
    assert Pending(Listing) == [] by { NothingPending(); }
    assert d.listed + (InQueue(c.queue) + Kept(c.reader)) == d.listed + InQueue(c.queue) + Kept(c.reader);
  }

  lemma ReceiveMoves(r: Record, c: Call)
    requires ForwarderCanStep(c, Receive)
    ensures InFlight(ForwarderStep(r, c, Receive)) == InFlight(c)
  {
    var first, rest := c.queue[0].chunks, InQueue(c.queue[1..]);
    assert InQueue(c.queue) == first + rest;
    assert InHand(c.uploader) + [] + (first + rest) == InHand(c.uploader) + first + rest;
  }

  /** The uploader finishes the first chunk, or drops it. */
  lemma UploaderMoves(c: Call, action: UploaderAction)
    requires UploaderCanStep(c, action)
    ensures var d := UploaderStep(c, action);
            && (action.Upload? ==> InFlight(c) == [c.uploader.chunk] + InFlight(d))
            && (!action.Upload? ==> InFlight(d) == InFlight(c))
  {
    hide InQueue, Pending, Kept;
    if action.Upload? {
      var p, q, k := Pending(c.forwarder), InQueue(c.queue), Kept(c.reader);
      assert [c.uploader.chunk] + p + q + k == [c.uploader.chunk] + ([] + p + q + k);
    }
  }
}
