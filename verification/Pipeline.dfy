/** One upload over any number of calls, as a transition system: in every call a reader, a forwarder and an
    uploader, joined by a buffered and an unbuffered channel, each of which may fail or be cancelled at any
    step; what the calls share is the upload's record. Network and chain operations are steps that succeed or
    fail. The fields `chunks`, `uploaded`, `created`, `batchOf`, `waited`, `base`, `listed` and `log` are history: no
    step depends on them. `created` has the batches whose transaction was created, in order, `batchOf` says for every
    recorded chunk how many there were when it was recorded, the last of them being its own, and `waited` has the
    transactions that were waited for with success. */
module Pipeline {
  import opened Base
  import opened Pieces
  import opened UploadRecord

  /** The file, the read buffer size, the chunks per batch, and the capacity of the channel of batches. */
  datatype Config = Config(file: Bytes, bufferSize: nat, batchSize: nat, channelSize: nat)
  {
    predicate Valid() { bufferSize > 0 && batchSize > 0 }
  }

  datatype Batch = Batch(chunks: seq<Chunk>, tx: nat)

  datatype Reader =
    | Skipping
    | Reading(batch: seq<Chunk>)
    | Creating(batch: seq<Chunk>, stop: bool)
    | Recording(batch: seq<Chunk>, done: nat, tx: nat, stop: bool)
    | Sending(batch: seq<Chunk>, tx: nat, stop: bool)
    | ReaderDone(ok: bool)

  datatype Forwarder =
    | Listing
    | Resuming(list: seq<ChunkWithTx>, confirmed: bool)
    | Receiving
    | Confirming(batch: Batch)
    | Forwarding(chunks: seq<Chunk>)
    | ForwarderDone(ok: bool)

  datatype Uploader =
    | Idle
    | Uploading(chunk: Chunk)
    | UploaderDone(ok: bool)

  /** A call in progress. `pos` is the reader's position in the file, `next` the index of its next chunk. */
  datatype Call = Call(
    continuation: bool,
    reader: Reader, pos: nat, next: nat,
    queue: seq<Batch>,
    forwarder: Forwarder,
    uploader: Uploader,
    cancelled: bool,
    base: nat, listed: seq<Chunk>, log: seq<Chunk>)

  datatype Phase = Resting | Running | Finishing

  datatype System = System(
    record: Record,
    chunks: seq<Chunk>, uploaded: set<nat>, created: seq<Batch>, batchOf: seq<nat>, waited: set<nat>,
    phase: Phase, call: Call)

  /** Each action, with what the world decides: whether an operation succeeds, and what it returns. */
  datatype ReaderAction =
    | Skip(ok: bool)
    | Read(ok: bool, cid: nat, rawDataSize: nat, encodedSize: nat)
    | CreateTx(ok: bool, tx: nat)
    | RecordChunk
    | Send
    | HandOff
    | ReaderQuits

  datatype ForwarderAction =
    | List
    | ConfirmResumed(ok: bool)
    | SendResumed
    | Receive
    | ReceiveClosed
    | Confirm(ok: bool)
    | Forward
    | ForwarderQuits

  datatype UploaderAction =
    | Upload(ok: bool)
    | UploadClosed
    | UploaderQuits

  datatype Step =
    | Start
    | Cancel
    | ByReader(reader: ReaderAction)
    | ByForwarder(forwarder: ForwarderAction)
    | ByUploader(uploader: UploaderAction)
    | Join
    | Finish(ok: bool)

  function NewCall(r: Record): Call {
    Call(r.chunkCount > 0, Skipping, 0, 0, [], Listing, Idle, false, r.chunkCount, [], [])
  }

  function Initial(): System {
    System(EMPTY, [], {}, [], [], {}, Resting, NewCall(EMPTY))
  }

  predicate AllDone(c: Call) {
    c.reader.ReaderDone? && c.forwarder.ForwarderDone? && c.uploader.UploaderDone?
  }

  /** Some goroutine has returned an error. */
  predicate Failed(c: Call) {
    c.reader == ReaderDone(false) || c.forwarder == ForwarderDone(false) || c.uploader == UploaderDone(false)
  }

  predicate ReaderCanStep(cfg: Config, c: Call, action: ReaderAction) {
    match action
    case Skip(ok) => c.reader.Skipping? && (ok || c.continuation)
    case Read(_, _, _, _) => c.reader.Reading? && |c.reader.batch| < cfg.batchSize
    case CreateTx(_, _) => c.reader.Creating?
    case RecordChunk => c.reader.Recording? && c.reader.done < |c.reader.batch|
    case Send => c.reader.Sending? && |c.queue| < cfg.channelSize
    case HandOff => c.reader.Sending? && c.queue == [] && c.forwarder.Receiving?
    case ReaderQuits => c.reader.Sending? && c.cancelled
  }

  predicate ForwarderCanStep(c: Call, action: ForwarderAction) {
    match action
    case List => c.forwarder.Listing?
    case ConfirmResumed(_) => c.forwarder.Resuming? && c.forwarder.list != [] && !c.forwarder.confirmed
    case SendResumed => c.forwarder.Resuming? && c.forwarder.list != [] && c.forwarder.confirmed && c.uploader.Idle?
    case Receive => c.forwarder.Receiving? && c.queue != []
    case ReceiveClosed => c.forwarder.Receiving? && c.queue == [] && c.reader.ReaderDone?
    case Confirm(_) => c.forwarder.Confirming?
    case Forward => c.forwarder.Forwarding? && c.forwarder.chunks != [] && c.uploader.Idle?
    case ForwarderQuits =>
      && c.cancelled
      && (c.forwarder.Receiving? || c.forwarder.Forwarding? || (c.forwarder.Resuming? && c.forwarder.confirmed))
  }

  predicate UploaderCanStep(c: Call, action: UploaderAction) {
    match action
    case Upload(_) => c.uploader.Uploading?
    case UploadClosed => c.uploader.Idle? && c.forwarder.ForwarderDone?
    case UploaderQuits => c.uploader.Idle? && c.cancelled
  }

  predicate Enabled(cfg: Config, s: System, step: Step) {
    match step
    case Start => s.phase == Resting && !s.record.isCommitted
    case Cancel => s.phase == Running && !s.call.cancelled
    case ByReader(action) => s.phase == Running && ReaderCanStep(cfg, s.call, action)
    case ByForwarder(action) => s.phase == Running && ForwarderCanStep(s.call, action)
    case ByUploader(action) => s.phase == Running && UploaderCanStep(s.call, action)
    case Join => s.phase == Running && AllDone(s.call)
    case Finish(_) => s.phase == Finishing
  }

  // ---- the effect of the steps

  /** A goroutine that returns an error cancels the others. */
  function ReaderFails(c: Call): Call { c.(reader := ReaderDone(false), cancelled := true) }
  function ForwarderFails(c: Call): Call { c.(forwarder := ForwarderDone(false), cancelled := true) }
  function UploaderFails(c: Call): Call { c.(uploader := UploaderDone(false), cancelled := true) }

  /** Leaving the loop that fills a batch. */
  function AfterBatch(batch: seq<Chunk>, stop: bool): Reader {
    if batch != [] then Creating(batch, stop) else if stop then ReaderDone(true) else Reading([])
  }

  function AfterSend(stop: bool): Reader { if stop then ReaderDone(true) else Reading([]) }

  /** readUpTo and createChunkUpload: a whole buffer unless the file ends first; at the end nothing is read. */
  function ReadNext(cfg: Config, c: Call, action: ReaderAction): Call
    requires cfg.Valid() && c.reader.Reading? && action.Read?
  {
    if !action.ok then ReaderFails(c)
    else if c.pos >= |cfg.file| then
      if c.next == 0 then ReaderFails(c) else c.(reader := AfterBatch(c.reader.batch, true))
    else
      var n := Min(cfg.bufferSize, |cfg.file| - c.pos);
      var chunk := Chunk(c.next, cfg.file[c.pos..c.pos + n], action.cid, action.rawDataSize, action.encodedSize);
      var batch := c.reader.batch + [chunk];
      c.(reader := if |batch| == cfg.batchSize then AfterBatch(batch, false) else Reading(batch),
         pos := c.pos + n, next := c.next + 1)
  }

  function AfterRecording(batch: seq<Chunk>, done: nat, tx: nat, stop: bool): Reader {
    if done < |batch| then Recording(batch, done, tx, stop) else Sending(batch, tx, stop)
  }

  function ReaderStep(cfg: Config, r: Record, c: Call, action: ReaderAction): Call
    requires cfg.Valid() && ReaderCanStep(cfg, c, action)
  {
    match action
    case Skip(ok) =>
      if !ok then ReaderFails(c)
      else if c.continuation then c.(reader := Reading([]), pos := r.actualFileSize, next := r.chunkCount)
      else c.(reader := Reading([]), pos := 0, next := 0)
    case Read(_, _, _, _) => ReadNext(cfg, c, action)
    case CreateTx(ok, tx) =>
      if ok then c.(reader := AfterRecording(c.reader.batch, 0, tx, c.reader.stop)) else ReaderFails(c)
    case RecordChunk => c.(reader := AfterRecording(c.reader.batch, c.reader.done + 1, c.reader.tx, c.reader.stop))
    case Send => c.(reader := AfterSend(c.reader.stop), queue := c.queue + [Batch(c.reader.batch, c.reader.tx)])
    case HandOff =>
      c.(reader := AfterSend(c.reader.stop), forwarder := Confirming(Batch(c.reader.batch, c.reader.tx)))
    case ReaderQuits => ReaderFails(c)
  }

  function AfterResumed(list: seq<ChunkWithTx>): Forwarder {
    if list == [] then Receiving else Resuming(list, false)
  }

  function AfterForwarded(chunks: seq<Chunk>): Forwarder {
    if chunks == [] then Receiving else Forwarding(chunks)
  }

  function ChunksOf(list: seq<ChunkWithTx>): seq<Chunk> {
    seq(|list|, i requires 0 <= i < |list| => list[i].chunk)
  }

  function ForwarderStep(r: Record, c: Call, action: ForwarderAction): Call
    requires ForwarderCanStep(c, action)
  {
    match action
    case List =>
      var list := if c.continuation then Listed(r.preCreated) else [];
      c.(forwarder := AfterResumed(list), listed := ChunksOf(list))
    case ConfirmResumed(ok) => if ok then c.(forwarder := Resuming(c.forwarder.list, true)) else ForwarderFails(c)
    case SendResumed =>
      c.(forwarder := AfterResumed(c.forwarder.list[1..]), uploader := Uploading(c.forwarder.list[0].chunk))
    case Receive => c.(forwarder := Confirming(c.queue[0]), queue := c.queue[1..])
    case ReceiveClosed => c.(forwarder := ForwarderDone(true))
    case Confirm(ok) => if ok then c.(forwarder := AfterForwarded(c.forwarder.batch.chunks)) else ForwarderFails(c)
    case Forward =>
      c.(forwarder := AfterForwarded(c.forwarder.chunks[1..]), uploader := Uploading(c.forwarder.chunks[0]))
    case ForwarderQuits => ForwarderFails(c)
  }

  function UploaderStep(c: Call, action: UploaderAction): Call
    requires UploaderCanStep(c, action)
  {
    match action
    case Upload(ok) => if ok then c.(uploader := Idle, log := c.log + [c.uploader.chunk]) else UploaderFails(c)
    case UploadClosed => c.(uploader := UploaderDone(true))
    case UploaderQuits => UploaderFails(c)
  }

  function Do(cfg: Config, s: System, step: Step): System
    requires cfg.Valid() && Enabled(cfg, s, step)
  {
    match step
    case Start => s.(phase := Running, call := NewCall(s.record))
    case Cancel => s.(call := s.call.(cancelled := true))
    case ByReader(action) =>
      var stepped := s.(call := ReaderStep(cfg, s.record, s.call, action));
      if action.RecordChunk? then
        var chunk := s.call.reader.batch[s.call.reader.done];
        stepped.(record := PreCreated(s.record, chunk, s.call.reader.tx), chunks := s.chunks + [chunk],
                 batchOf := s.batchOf + [|s.created|])
      else if action.CreateTx? && action.ok then
        stepped.(created := s.created + [Batch(s.call.reader.batch, action.tx)])
      else stepped
    case ByForwarder(action) =>
      var stepped := s.(call := ForwarderStep(s.record, s.call, action));
      if action == ConfirmResumed(true) then stepped.(waited := s.waited + {s.call.forwarder.list[0].tx})
      else if action == Confirm(true) then stepped.(waited := s.waited + {s.call.forwarder.batch.tx})
      else stepped
    case ByUploader(action) =>
      var stepped := s.(call := UploaderStep(s.call, action));
      if action == Upload(true) then
        var chunk := s.call.uploader.chunk;
        stepped.(record := Uploaded(s.record, chunk), uploaded := s.uploaded + {chunk.index})
      else stepped
    case Join => s.(phase := if Failed(s.call) then Resting else Finishing)
    case Finish(ok) =>
      if ok && s.record.links != [] then s.(record := s.record.(isCommitted := true), phase := Resting)
      else s.(phase := Resting)
  }

  /** The steps lead from one state to another. */
  ghost predicate Path(cfg: Config, s: System, steps: seq<Step>, t: System)
    requires cfg.Valid()
    decreases |steps|
  {
    if steps == [] then s == t
    else Enabled(cfg, s, steps[0]) && Path(cfg, Do(cfg, s, steps[0]), steps[1..], t)
  }

  /** The states an upload can be in, after any number of steps of any number of calls. */
  ghost predicate Reachable(cfg: Config, s: System) {
    cfg.Valid() && exists steps :: Path(cfg, Initial(), steps, s)
  }
}
