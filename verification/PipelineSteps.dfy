/** What single steps of an upload change, and what they leave: failures, the record, a chunk that is read, waiting. */
module PipelineSteps {
  import opened Base
  import opened Pieces
  import opened UploadRecord
  import opened Pipeline

  /** The step is an operation that reports failure, or a goroutine that gives up because the call is cancelled. */
  predicate GoesWrong(step: Step) {
    match step
    case ByReader(Skip(ok)) => !ok
    case ByReader(Read(ok, _, _, _)) => !ok
    case ByReader(CreateTx(ok, _)) => !ok
    case ByReader(ReaderQuits) => true
    case ByForwarder(ConfirmResumed(ok)) => !ok
    case ByForwarder(Confirm(ok)) => !ok
    case ByForwarder(ForwarderQuits) => true
    case ByUploader(Upload(ok)) => !ok
    case ByUploader(UploaderQuits) => true
    case _ => false
  }

  /** After such a step the goroutine has returned with an error and the call is cancelled, and nothing else has
      changed: nothing is recorded, created, uploaded or sent. Skipping can only fail in a resumed call. */
  lemma FailureStops(cfg: Config, s: System, step: Step)
    requires cfg.Valid() && Enabled(cfg, s, step) && GoesWrong(step)
    ensures var failed := if step.ByReader? then s.call.(reader := ReaderDone(false))
                          else if step.ByForwarder? then s.call.(forwarder := ForwarderDone(false))
                          else s.call.(uploader := UploaderDone(false));
            Do(cfg, s, step) == s.(call := failed.(cancelled := true))
    ensures Failed(Do(cfg, s, step).call)
    ensures step == ByReader(Skip(false)) ==> s.call.continuation
  {
  }

  /** A file of no bytes makes a first call fail, too. */
  lemma EmptyFileFails(cfg: Config, s: System, step: Step)
    requires cfg.Valid() && Enabled(cfg, s, step) && step.ByReader? && step.reader.Read? && step.reader.ok
    requires s.call.pos >= |cfg.file| && s.call.next == 0
    ensures Do(cfg, s, step) == s.(call := s.call.(reader := ReaderDone(false), cancelled := true))
  {
  }

  /** The record changes in three ways only. Recording a chunk puts it under its index together with the transaction its
      batch was created with, counts it and its sizes, and links it; uploading one takes its entry away; and a
      call that ends well marks the upload committed, once. */
  lemma RecordChanges(cfg: Config, s: System, step: Step)
    requires cfg.Valid() && Enabled(cfg, s, step)
    ensures var r, t := s.record, Do(cfg, s, step).record;
            if step == ByReader(RecordChunk) then
              var x, tx := s.call.reader.batch[s.call.reader.done], s.call.reader.tx;
              && t.preCreated == r.preCreated[x.index := ChunkWithTx(x, tx)]
              && t.chunkCount == r.chunkCount + 1 && t.actualFileSize == r.actualFileSize + |x.data|
              && t.encodedFileSize == r.encodedFileSize + x.encodedSize
              && t.links == r.links + [Link(x.cid, x.rawDataSize, x.encodedSize)] && t.isCommitted == r.isCommitted
            else if step == ByUploader(Upload(true)) then
              t == r.(preCreated := r.preCreated - {s.call.uploader.chunk.index})
            else if step == Finish(true) then t == r.(isCommitted := r.isCommitted || r.links != [])
            else t == r
  {
    hide ReadNext, Listed;
  }

  /** Only a call that ends well commits; a failing end leaves the record as it is, so the upload can be tried again. */
  lemma OnlyFinishCommits(cfg: Config, s: System, step: Step)
    requires cfg.Valid() && Enabled(cfg, s, step)
    ensures Do(cfg, s, step).record.isCommitted && !s.record.isCommitted ==> step == Finish(true) && s.phase == Finishing
    ensures step == Finish(false) ==> Do(cfg, s, step) == s.(phase := Resting)
    ensures step == Finish(true) && s.record.links != [] ==>
              Do(cfg, s, step) == s.(record := s.record.(isCommitted := true), phase := Resting)
  {
    RecordChanges(cfg, s, step);
  }

  /** Calls follow one another: the next one starts when nothing is left of the one before, a call ends when its three
      goroutines have returned, and only if none of them failed its end is tried on the chain. */
  lemma CallsFollow(cfg: Config, s: System, step: Step)
    requires cfg.Valid() && Enabled(cfg, s, step)
    ensures s.phase == Resting ==> step == Start
    ensures s.phase == Finishing ==> step.Finish?
    ensures s.phase != Running ==> Do(cfg, s, step).phase == if step == Start then Running else Resting
    ensures s.phase == Running && step != Join ==> Do(cfg, s, step).phase == Running
    ensures step == Join ==> Do(cfg, s, step).phase == if Failed(s.call) then Resting else Finishing
    ensures step == Join ==> s.call.reader.ReaderDone? && s.call.forwarder.ForwarderDone? && s.call.uploader.UploaderDone?
  {
    hide ReadNext, Listed;
  }

  /** Uploads and the log grow by successful uploads only, and by the chunk that was uploaded. */
  lemma UploadsChange(cfg: Config, s: System, step: Step)
    requires cfg.Valid() && Enabled(cfg, s, step)
    ensures var t := Do(cfg, s, step);
            if step == ByUploader(Upload(true)) then
              t.uploaded == s.uploaded + {s.call.uploader.chunk.index} && t.call.log == s.call.log + [s.call.uploader.chunk]
            else t.uploaded == s.uploaded && (step != Start ==> t.call.log == s.call.log)
  {
    hide Listed, Min;
  }

  /** Reading before the end of the file: the next index, the next bytes up to a buffer full, and what the chunk's DAG
      gave; the batch is closed exactly when it is full. */
  lemma ReadGives(cfg: Config, s: System, action: ReaderAction)
    requires cfg.Valid() && Enabled(cfg, s, ByReader(action)) && action.Read? && action.ok && s.call.pos < |cfg.file|
    ensures var c, d := s.call, Do(cfg, s, ByReader(action)).call;
            var n := if |cfg.file| - c.pos < cfg.bufferSize then |cfg.file| - c.pos else cfg.bufferSize;
            var x := Chunk(c.next, cfg.file[c.pos..c.pos + n], action.cid, action.rawDataSize, action.encodedSize);
            && d.pos == c.pos + n && d.next == c.next + 1
            && d.reader == if |c.reader.batch| + 1 == cfg.batchSize then Creating(c.reader.batch + [x], false)
                           else Reading(c.reader.batch + [x])
  {
  }

  /** Nobody waits without need: for room in the channel of batches, for a batch in it, or for the uploader. */
  lemma NoNeedlessWait(cfg: Config, s: System)
    requires cfg.Valid() && s.phase == Running
    ensures s.call.reader.Sending? && |s.call.queue| < cfg.channelSize ==> Enabled(cfg, s, ByReader(Send))
    ensures s.call.forwarder.Receiving? && s.call.queue != [] ==> Enabled(cfg, s, ByForwarder(Receive))
    ensures s.call.forwarder.Forwarding? && s.call.forwarder.chunks != [] && s.call.uploader.Idle? ==>
              Enabled(cfg, s, ByForwarder(Forward))
    ensures s.call.forwarder.Resuming? && s.call.forwarder.list != [] && s.call.forwarder.confirmed && s.call.uploader.Idle?
            ==> Enabled(cfg, s, ByForwarder(SendResumed))
  {
  }

  // ---- transactions

  /** The transactions created by the steps, in order. */
  function CreatedTxs(steps: seq<Step>): seq<nat> {
    if steps == [] then []
    else
      match steps[0]
      case ByReader(CreateTx(ok, tx)) => (if ok then [tx] else []) + CreatedTxs(steps[1..])
      case _ => CreatedTxs(steps[1..])
  }

  function TxsOf(batches: seq<Batch>): seq<nat> {
    seq(|batches|, i requires 0 <= i < |batches| => batches[i].tx)
  }

  lemma CreatedByStep(cfg: Config, s: System, step: Step)
    requires cfg.Valid() && Enabled(cfg, s, step)
    ensures TxsOf(Do(cfg, s, step).created) == TxsOf(s.created) + CreatedTxs([step])
    ensures Do(cfg, s, step).created == s.created ||
            (step.ByReader? && step.reader.CreateTx? && step.reader.ok && s.call.reader.Creating? &&
             Do(cfg, s, step).created == s.created + [Batch(s.call.reader.batch, step.reader.tx)])
  {
    hide ReadNext, Listed;
    assert [step][1..] == [] && CreatedTxs([]) == [];
  }

  lemma CreatedTxsFirst(steps: seq<Step>)
    requires steps != []
    ensures CreatedTxs(steps) == CreatedTxs([steps[0]]) + CreatedTxs(steps[1..])
  {
    assert [steps[0]][1..] == [] && CreatedTxs([]) == [];
  }

  /** The history of created batches has exactly the transactions of the successful creations of a run, in order. */
  lemma {:induction false} CreatedBySteps(cfg: Config, s: System, steps: seq<Step>, t: System)
    requires cfg.Valid() && Path(cfg, s, steps, t)
    ensures TxsOf(t.created) == TxsOf(s.created) + CreatedTxs(steps)
    decreases |steps|
  {
    hide Do, Enabled, CreatedTxs, TxsOf;
    if steps == [] {
      assert CreatedTxs([]) == [] by { NoTxs(); }
    } else {
      CreatedByStep(cfg, s, steps[0]);
      CreatedBySteps(cfg, Do(cfg, s, steps[0]), steps[1..], t);
      CreatedTxsFirst(steps);
      assert TxsOf(s.created) + (CreatedTxs([steps[0]]) + CreatedTxs(steps[1..]))
          == TxsOf(s.created) + CreatedTxs([steps[0]]) + CreatedTxs(steps[1..]);
    }
  }

  lemma NoTxs()
    ensures CreatedTxs([]) == []
  {
  }
}
