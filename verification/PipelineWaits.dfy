/** Nothing is uploaded before its transaction was waited for: in every state, over every failure and resumed call. */
module PipelineWaits {
  import opened Base
  import opened Pieces
  import opened UploadRecord
  import opened Pipeline
  import opened PipelineInvariant
  import opened PipelineSafety
  import opened PipelineBatches

  /** The chunks are recorded from batches with this transaction. */
  ghost predicate Paired(s: System, chunks: seq<Chunk>, tx: nat)
    requires RecordedFrom(s)
  {
    forall x :: x in chunks ==> PairOk(s, ChunkWithTx(x, tx))
  }

  /** The chunk is recorded, and the transaction of its batch was waited for. */
  ghost predicate Waited(s: System, x: Chunk)
    requires RecordedFrom(s)
  {
    x.index < |s.chunks| && s.chunks[x.index] == x && BatchOf(s, x.index).tx in s.waited
  }

  ghost predicate ReaderWaits(s: System, reader: Reader)
    requires RecordedFrom(s)
  {
    match reader
    case Recording(batch, done, tx, _) => done <= |batch| && Paired(s, batch[..done], tx)
    case Sending(batch, tx, _) => Paired(s, batch, tx)
    case _ => true
  }

  ghost predicate ForwarderWaits(s: System, forwarder: Forwarder)
    requires RecordedFrom(s)
  {
    match forwarder
    case Resuming(list, confirmed) =>
      && (forall e :: e in list ==> PairOk(s, e))
      && (confirmed ==> list != [] && list[0].tx in s.waited)
    case Confirming(b) => Paired(s, b.chunks, b.tx)
    case Forwarding(chunks) => forall x :: x in chunks ==> Waited(s, x)
    case _ => true
  }

  ghost predicate CallWaits(s: System, c: Call)
    requires RecordedFrom(s)
  {
    && ReaderWaits(s, c.reader)
    && (forall b :: b in c.queue ==> Paired(s, b.chunks, b.tx))
    && ForwarderWaits(s, c.forwarder)
    && (c.uploader.Uploading? ==> Waited(s, c.uploader.chunk))
  }

  /** Of every created batch all chunks are recorded, unless the reader is still recording it. */
  ghost predicate AllRecorded(s: System)
    requires RecordedFrom(s)
  {
    forall k :: 0 <= k < |s.created| && !(s.phase == Running && s.call.reader.Recording? && k + 1 == |s.created|) ==>
      Paired(s, s.created[k].chunks, s.created[k].tx)
  }

  ghost predicate WaitInv(s: System) {
    && RecordedFrom(s) && AllRecorded(s)
    && (forall i :: i in s.uploaded ==> i < |s.chunks| && s.chunks[i].index == i && Waited(s, s.chunks[i]))
    && (s.phase == Running ==> CallWaits(s, s.call))
  }

  lemma InitialWaits(cfg: Config)
    ensures WaitInv(Initial())
  {
  }

  // ---- every step

  /** Nothing recorded or waited for is lost. */
  ghost predicate Extends(s: System, t: System) {
    && RecordedFrom(s) && RecordedFrom(t)
    && s.waited <= t.waited && s.chunks <= t.chunks
    && forall e :: PairOk(s, e) ==> PairOk(t, e)
  }

  lemma WaitedStays(s: System, t: System, x: Chunk)
    requires Extends(s, t) && Waited(s, x)
    ensures Waited(t, x)
  {
    assert PairOk(s, ChunkWithTx(x, BatchOf(s, x.index).tx));
  }

  lemma CallWaitsStays(s: System, t: System, c: Call)
    requires Extends(s, t) && CallWaits(s, c)
    ensures CallWaits(t, c)
  {
    hide RecordedFrom, PairOk, Waited;
    forall x | Waited(s, x)
      ensures Waited(t, x)
    {
      WaitedStays(s, t, x);
    }
  }

  lemma UploadedStays(s: System, t: System)
    requires Extends(s, t) && t.uploaded == s.uploaded
    requires forall i :: i in s.uploaded ==> i < |s.chunks| && s.chunks[i].index == i && Waited(s, s.chunks[i])
    ensures forall i :: i in t.uploaded ==> i < |t.chunks| && t.chunks[i].index == i && Waited(t, t.chunks[i])
  {
    hide RecordedFrom, PairOk, Waited;
    forall i | i in t.uploaded
      ensures i < |t.chunks| && t.chunks[i].index == i && Waited(t, t.chunks[i])
    {
      WaitedStays(s, t, s.chunks[i]);
    }
  }

  lemma StepExtends(cfg: Config, s: System, step: Step)
    requires Inv(cfg, s) && BatchInv(cfg, s) && Enabled(cfg, s, step)
    ensures Extends(s, Do(cfg, s, step)) && BatchInv(cfg, Do(cfg, s, step))
  {
    hide RecordedFrom, PairOk, Inv, ReaderStep, ForwarderStep, UploaderStep, Travelling, FullOrLast;
    StepBatches(cfg, s, step);
  }

  /** The reader's actions, in terms of what is recorded after them. */
  lemma ReaderActs(cfg: Config, r: Record, t: System, c: Call, action: ReaderAction)
    requires cfg.Valid() && ReaderCanStep(cfg, c, action) && RecordedFrom(t) && CallWaits(t, c)
    requires action.RecordChunk? ==> PairOk(t, ChunkWithTx(c.reader.batch[c.reader.done], c.reader.tx))
    ensures CallWaits(t, ReaderStep(cfg, r, c, action))
  {
    hide RecordedFrom, PairOk, Waited, Min, Paired;
    if action.RecordChunk? {
      OneMorePaired(t, c.reader.batch, c.reader.done, c.reader.tx);
    }
    NonePaired(t, c.reader);
  }

  lemma NonePaired(t: System, reader: Reader)
    requires RecordedFrom(t)
    ensures reader.Creating? ==> forall tx :: Paired(t, reader.batch[..0], tx)
    ensures reader.Creating? && reader.batch == [] ==> forall tx :: Paired(t, reader.batch, tx)
  {
    hide RecordedFrom, PairOk;
  }

  lemma OneMorePaired(t: System, batch: seq<Chunk>, done: nat, tx: nat)
    requires RecordedFrom(t) && done < |batch|
    requires Paired(t, batch[..done], tx) && PairOk(t, ChunkWithTx(batch[done], tx))
    ensures Paired(t, batch[..done + 1], tx)
    ensures done + 1 == |batch| ==> Paired(t, batch, tx)
  {
    hide RecordedFrom, PairOk;
    assert forall x :: x in batch[..done + 1] ==> x in batch[..done] || x == batch[done];
    assert batch[..|batch|] == batch;
  }

  lemma ForwarderActs(r: Record, t: System, c: Call, action: ForwarderAction)
    requires ForwarderCanStep(c, action) && RecordedFrom(t) && CallWaits(t, c)
    requires action == ConfirmResumed(true) ==> c.forwarder.list[0].tx in t.waited
    requires action == Confirm(true) ==> c.forwarder.batch.tx in t.waited
    requires action.List? ==> forall e :: e in Listed(r.preCreated) ==> PairOk(t, e)
    ensures CallWaits(t, ForwarderStep(r, c, action))
  {
    hide RecordedFrom, Listed, ReaderWaits;
    match action
    case SendResumed =>
      var list := c.forwarder.list;
      assert list[0] in list && forall e :: e in list[1..] ==> e in list;
    case Receive =>
      assert c.queue[0] in c.queue && forall b :: b in c.queue[1..] ==> b in c.queue;
    case Confirm(ok) =>
      if ok {
        NowWaited(t, c.forwarder.batch);
      }
    case Forward =>
      var chunks := c.forwarder.chunks;
      assert chunks[0] in chunks && forall x :: x in chunks[1..] ==> x in chunks;
    case _ =>
  }

  lemma NowWaited(t: System, b: Batch)
    requires RecordedFrom(t) && Paired(t, b.chunks, b.tx) && b.tx in t.waited
    ensures forall x :: x in b.chunks ==> Waited(t, x)
  {
    hide RecordedFrom;
    forall x | x in b.chunks
      ensures Waited(t, x)
    {
      assert PairOk(t, ChunkWithTx(x, b.tx));
    }
  }

  lemma UploaderActs(t: System, c: Call, action: UploaderAction)
    requires UploaderCanStep(c, action) && RecordedFrom(t) && CallWaits(t, c)
    ensures CallWaits(t, UploaderStep(c, action))
  {
    hide RecordedFrom, Waited, ForwarderWaits, ReaderWaits, PairOk;
  }

  lemma StillRecording(cfg: Config, s: System, step: Step)
    requires cfg.Valid() && WaitInv(s) && Enabled(cfg, s, step) && !step.ByReader? && Extends(s, Do(cfg, s, step))
    ensures AllRecorded(Do(cfg, s, step))
  {
    hide RecordedFrom, PairOk, Waited, ForwarderWaits, ReaderWaits, Paired, Listed;
    OthersRecorded(s, Do(cfg, s, step));
  }

  /** The last of a batch is recorded, and any other step of the reader leaves a batch it is recording as it is. */
  lemma RecordingEnds(cfg: Config, s: System, action: ReaderAction)
    requires cfg.Valid() && BatchInv(cfg, s) && WaitInv(s) && Enabled(cfg, s, ByReader(action))
    requires s.call.reader.Creating? ==> s.call.reader.batch != []
    requires Extends(s, Do(cfg, s, ByReader(action)))
    requires CallWaits(Do(cfg, s, ByReader(action)), Do(cfg, s, ByReader(action)).call)
    ensures AllRecorded(Do(cfg, s, ByReader(action)))
  {
    hide RecordedFrom, PairOk, Waited, ForwarderWaits, FullOrLast;
    var t, n := Do(cfg, s, ByReader(action)), |s.created|;
    OthersRecorded(s, t);
    if action.RecordChunk? && !t.call.reader.Recording? {
      assert t.created[n - 1] == Batch(t.call.reader.batch, t.call.reader.tx);
    }
  }

  lemma OthersRecorded(s: System, t: System)
    requires Extends(s, t) && AllRecorded(s) && s.created <= t.created
    ensures forall k :: 0 <= k < |s.created| && !(s.phase == Running && s.call.reader.Recording? && k + 1 == |s.created|)
              ==> Paired(t, t.created[k].chunks, t.created[k].tx)
  {
    hide RecordedFrom, PairOk;
  }

  lemma StepWaits(cfg: Config, s: System, step: Step)
    requires cfg.Valid() && Inv(cfg, s) && BatchInv(cfg, s) && WaitInv(s) && Enabled(cfg, s, step)
    ensures WaitInv(Do(cfg, s, step))
  {
    hide RecordedFrom, PairOk, Waited, Inv, ReaderStep, ForwarderStep, UploaderStep, Extends, CallWaits, BatchInv;
    var t := Do(cfg, s, step);
    StepExtends(cfg, s, step);
    IsRecorded(s, t);
    if s.phase == Running {
      CallWaitsStays(s, t, s.call);
    }
    if !step.ByReader? {
      StillRecording(cfg, s, step);
    }
    match step
    case ByReader(action) =>
      if action.RecordChunk? {
        RecordStepBatches(cfg, s);
      }
      ReaderShapes(cfg, s);
      ReaderActs(cfg, s.record, t, s.call, action);
      RecordingEnds(cfg, s, action);
      UploadedStays(s, t);
    case ByForwarder(action) =>
      ListedPairs(cfg, s);
      PairsStay(s, t);
      ForwarderActs(s.record, t, s.call, action);
      UploadedStays(s, t);
    case ByUploader(action) =>
      UploaderActs(t, s.call, action);
      UploadWaits(cfg, s, action);
    case Start =>
      NewCallWaits(t);
      UploadedStays(s, t);
    case Cancel =>
      CancelledWaits(t, s.call);
      UploadedStays(s, t);
    case _ =>
      UploadedStays(s, t);
  }

  lemma IsRecorded(s: System, t: System)
    requires Extends(s, t)
    ensures RecordedFrom(s) && RecordedFrom(t)
  {
  }

  lemma PairsStay(s: System, t: System)
    requires Extends(s, t)
    ensures forall e :: PairOk(s, e) ==> PairOk(t, e)
  {
    hide PairOk;
  }

  lemma NewCallWaits(t: System)
    requires RecordedFrom(t)
    ensures CallWaits(t, NewCall(t.record))
  {
  }

  lemma CancelledWaits(t: System, c: Call)
    requires RecordedFrom(t) && CallWaits(t, c)
    ensures CallWaits(t, c.(cancelled := true))
  {
    hide RecordedFrom, Paired, Waited, PairOk;
  }

  lemma UploadWaits(cfg: Config, s: System, action: UploaderAction)
    requires cfg.Valid() && WaitInv(s) && Enabled(cfg, s, ByUploader(action))
    requires Extends(s, Do(cfg, s, ByUploader(action)))
    ensures var t := Do(cfg, s, ByUploader(action));
            forall i :: i in t.uploaded ==> i < |t.chunks| && t.chunks[i].index == i && Waited(t, t.chunks[i])
  {
    hide RecordedFrom, PairOk, ForwarderWaits, ReaderWaits;
    var t := Do(cfg, s, ByUploader(action));
    forall i | i in t.uploaded
      ensures i < |t.chunks| && t.chunks[i].index == i && Waited(t, t.chunks[i])
    {
      WaitedStays(s, t, s.chunks[i]);
    }
  }

  lemma {:induction false} PathWaits(cfg: Config, s: System, steps: seq<Step>, t: System)
    requires cfg.Valid() && Inv(cfg, s) && BatchInv(cfg, s) && WaitInv(s) && Path(cfg, s, steps, t)
    ensures WaitInv(t)
    decreases |steps|
  {
    hide Inv, BatchInv, WaitInv, Do, Enabled;
    if steps == [] {
    } else {
      StepKeeps(cfg, s, steps[0]);
      StepBatches(cfg, s, steps[0]);
      StepWaits(cfg, s, steps[0]);
      PathWaits(cfg, Do(cfg, s, steps[0]), steps[1..], t);
    }
  }

  lemma ReachableWaits(cfg: Config, s: System)
    requires Reachable(cfg, s)
    ensures WaitInv(s)
  {
    hide Inv, BatchInv, WaitInv, Path;
    var steps :| Path(cfg, Initial(), steps, s);
    InitialInv(cfg);
    InitialBatches(cfg);
    InitialWaits(cfg);
    PathWaits(cfg, Initial(), steps, s);
  }

  // ---- what holds in every reachable state

  /** Waiting for a transaction, of a batch or of the resume list, is the only thing that adds to those waited for. */
  lemma WaitedByStep(cfg: Config, s: System, step: Step)
    requires cfg.Valid() && Enabled(cfg, s, step)
    ensures Do(cfg, s, step).waited ==
            if step == ByForwarder(Confirm(true)) then s.waited + {s.call.forwarder.batch.tx}
            else if step == ByForwarder(ConfirmResumed(true)) then s.waited + {s.call.forwarder.list[0].tx}
            else s.waited
  {
    hide Listed, ReadNext;
  }

  /** In every reachable state, the transaction of every chunk that is uploaded, or being uploaded, or on its way to be,
      has been waited for with success. */
  lemma UploadedAfterWaiting(cfg: Config, s: System, x: Chunk)
    requires Reachable(cfg, s)
    requires || (x in s.chunks && x.index in s.uploaded)
             || (s.phase == Running && s.call.uploader == Uploading(x))
             || (s.phase == Running && s.call.forwarder.Forwarding? && x in s.call.forwarder.chunks)
    ensures x.index < |s.chunks| && s.chunks[x.index] == x
    ensures x.index < |s.batchOf| && 0 < s.batchOf[x.index] <= |s.created|
    ensures s.created[s.batchOf[x.index] - 1].tx in s.waited
  {
    hide PairOk, ReaderWaits;
    ReachableWaits(cfg, s);
    RecordAgrees(cfg, s);
  }

  /** Whatever fails, a batch is recorded as a whole: in every reachable state in which the reader is not recording, so
      always between calls, each chunk of each created batch is recorded, in a batch with the same transaction. */
  lemma BatchesAreWhole(cfg: Config, s: System, k: nat, x: Chunk)
    requires Reachable(cfg, s) && !(s.phase == Running && s.call.reader.Recording?)
    requires k < |s.created| && x in s.created[k].chunks
    ensures x.index < |s.chunks| && s.chunks[x.index] == x
    ensures x.index < |s.batchOf| && 0 < s.batchOf[x.index] <= |s.created|
    ensures s.created[s.batchOf[x.index] - 1].tx == s.created[k].tx
  {
    hide ForwarderWaits, ReaderWaits, Waited;
    ReachableWaits(cfg, s);
    assert PairOk(s, ChunkWithTx(x, s.created[k].tx));
  }
}
