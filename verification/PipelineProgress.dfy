/** The pipeline never deadlocks and always ends, and a call in which nothing fails succeeds. */
module PipelineProgress {
  import opened Base
  import opened Pieces
  import opened UploadRecord
  import opened Pipeline
  import opened PipelineFlight
  import opened PipelineInvariant
  import opened PipelineSafety

  // ---- deadlock freedom

  /** Something a goroutine does, or the end of the call; not an outside cancellation. */
  predicate ByTheCall(step: Step) {
    step.ByReader? || step.ByForwarder? || step.ByUploader? || step.Join?
  }

  /** Nothing is cancelled or fails at this step. */
  predicate Smooth(step: Step) {
    match step
    case Cancel => false
    case ByReader(Skip(ok)) => ok
    case ByReader(Read(ok, _, _, _)) => ok
    case ByReader(CreateTx(ok, _)) => ok
    case ByForwarder(ConfirmResumed(ok)) => ok
    case ByForwarder(Confirm(ok)) => ok
    case ByUploader(Upload(ok)) => ok
    case _ => true
  }

  /** Either the reader can act by itself, or it waits to send, or it has returned. */
  lemma ReaderNext(cfg: Config, s: System) returns (step: Step)
    requires Inv(cfg, s) && s.phase == Running && !s.call.reader.Sending? && !s.call.reader.ReaderDone?
    ensures ByTheCall(step) && Smooth(step) && Enabled(cfg, s, step)
  {
    hide RecordInv, SplitInv, FlightInv, OrderInv, ListedInv, DoneInv, CoversTo, Complete, ForwarderShape;
    match s.call.reader
    case Skipping => step := ByReader(Skip(true));
    case Reading(_) => step := ByReader(Read(true, 0, 0, 0));
    case Creating(_, _) => step := ByReader(CreateTx(true, 0));
    case Recording(_, _, _, _) => step := ByReader(RecordChunk);
  }

  /** When the uploader is not uploading and the reader waits or has returned, the forwarder can act, or takes
      the reader's batch, or one of the three returns. */
  lemma ForwarderNext(cfg: Config, s: System) returns (step: Step)
    requires Inv(cfg, s) && s.phase == Running
    requires s.call.reader.Sending? || s.call.reader.ReaderDone?
    requires !s.call.uploader.Uploading? && !s.call.forwarder.ForwarderDone?
    ensures ByTheCall(step) && Enabled(cfg, s, step) && (s.call.cancelled || Smooth(step))
  {
    hide RecordInv, SplitInv, FlightInv, OrderInv, ListedInv, ReaderInv, Complete;
    var c := s.call;
    match c.forwarder
    case Listing => step := ByForwarder(List);
    case Resuming(_, confirmed) =>
      step := ByForwarder(if !confirmed then ConfirmResumed(true)
                          else if c.uploader.Idle? then SendResumed else ForwarderQuits);
    case Receiving =>
      step := if c.queue != [] then ByForwarder(Receive)
              else if c.reader.Sending? then ByReader(HandOff) else ByForwarder(ReceiveClosed);
    case Confirming(_) => step := ByForwarder(Confirm(true));
    case Forwarding(_) => step := ByForwarder(if c.uploader.Idle? then Forward else ForwarderQuits);
  }

  /** In every state of a running call some step is possible that is no outside cancellation, and while the
      call is not cancelled one that is no failure. */
  lemma NextStep(cfg: Config, s: System) returns (step: Step)
    requires Inv(cfg, s) && s.phase == Running
    ensures ByTheCall(step) && Enabled(cfg, s, step) && (s.call.cancelled || Smooth(step))
  {
    hide RecordInv, SplitInv, FlightInv, OrderInv, ListedInv, ReaderInv, ForwarderShape, Complete;
    var c := s.call;
    if c.uploader.Uploading? {
      step := ByUploader(Upload(true));
    } else if !c.reader.Sending? && !c.reader.ReaderDone? {
      step := ReaderNext(cfg, s);
    } else if !c.forwarder.ForwarderDone? {
      step := ForwarderNext(cfg, s);
    } else if c.reader.Sending? {
      step := ByReader(ReaderQuits);
    } else if c.uploader.Idle? {
      step := ByUploader(UploadClosed);
    } else {
      step := Join;
    }
  }

  /** No reachable state is a deadlock: until the call has ended, one of the three goroutines can go on, or all
      have returned and the call can end. */
  lemma NoDeadlock(cfg: Config, s: System)
    requires Reachable(cfg, s) && s.phase == Running
    ensures AllDone(s.call) ||
            exists step: Step :: (step.ByReader? || step.ByForwarder? || step.ByUploader?) && Enabled(cfg, s, step)
  {
    hide Inv;
    ReachableInv(cfg, s);
    var step := NextStep(cfg, s);
    assert Enabled(cfg, s, step);
  }

  // ---- termination

  /** Work left per byte not yet read: 9 covers every later step of a chunk of one byte. */
  function ReaderWork(size: nat, reader: Reader, pos: nat): nat {
    var rest := if pos <= size then size - pos else 0;
    match reader
    case Skipping => 9 * size + 2
    case Reading(batch) => 9 * rest + 8 * |batch| + 1
    case Creating(batch, _) => 9 * rest + 3 * |batch| + 5
    case Recording(batch, done, _, _) => 9 * rest + 2 * |batch| + 4 + (if done <= |batch| then |batch| - done else 0)
    case Sending(batch, _, _) => 9 * rest + 2 * |batch| + 4
    case ReaderDone(_) => 0
  }

  function QueueWork(queue: seq<Batch>): nat {
    if queue == [] then 0 else 2 * |queue[0].chunks| + 2 + QueueWork(queue[1..])
  }

  function ForwarderWork(size: nat, forwarder: Forwarder): nat {
    match forwarder
    case Listing => 3 * size + 3
    case Resuming(list, confirmed) => 3 * |list| + (if confirmed then 1 else 2)
    case Receiving => 1
    case Confirming(batch) => 2 * |batch.chunks| + 2
    case Forwarding(chunks) => 2 * |chunks| + 1
    case ForwarderDone(_) => 0
  }

  function UploaderWork(uploader: Uploader): nat {
    match uploader
    case Idle => 1
    case Uploading(_) => 2
    case UploaderDone(_) => 0
  }

  /** An upper bound on the number of steps left in a running call. */
  function Work(cfg: Config, c: Call): nat {
    ReaderWork(|cfg.file|, c.reader, c.pos) + QueueWork(c.queue) + ForwarderWork(|cfg.file|, c.forwarder)
    + UploaderWork(c.uploader) + (if c.cancelled then 0 else 1)
  }

  lemma {:induction false} QueueWorkSnoc(queue: seq<Batch>, b: Batch)
    ensures QueueWork(queue + [b]) == QueueWork(queue) + 2 * |b.chunks| + 2
  {
    if queue == [] {
      assert QueueWork([b]) == 2 * |b.chunks| + 2 + QueueWork([]);
    } else {
      QueueWorkSnoc(queue[1..], b);
      assert (queue + [b])[1..] == queue[1..] + [b];
    }
  }

  /** Where the reader's position is: never past the end once it has skipped. */
  lemma PositionInFile(cfg: Config, s: System)
    requires Inv(cfg, s) && s.phase == Running
    ensures Active(s.call.reader) ==> s.call.pos <= |cfg.file|
    ensures s.record.actualFileSize <= |cfg.file|
  {
  }

  lemma ReadWorks(cfg: Config, c: Call, action: ReaderAction)
    requires cfg.Valid() && c.reader.Reading? && action.Read? && c.pos <= |cfg.file|
    ensures var d := ReadNext(cfg, c, action);
            ReaderWork(|cfg.file|, d.reader, d.pos) < ReaderWork(|cfg.file|, c.reader, c.pos)
            && (c.cancelled ==> d.cancelled)
            && d.queue == c.queue && d.forwarder == c.forwarder && d.uploader == c.uploader
  {
  }

  lemma ReaderWorks(cfg: Config, s: System, action: ReaderAction)
    requires Inv(cfg, s) && Enabled(cfg, s, ByReader(action))
    ensures Work(cfg, ReaderStep(cfg, s.record, s.call, action)) < Work(cfg, s.call)
  {
    hide RecordInv, SplitInv, CallInv, Complete, ReadNext, QueueWork;
    PositionInFile(cfg, s);
    match action
    case Read(_, _, _, _) => ReadWorks(cfg, s.call, action);
    case Send => QueueWorkSnoc(s.call.queue, Batch(s.call.reader.batch, s.call.reader.tx));
    case _ =>
  }

  /** Ascending keys below n are at most n. */
  lemma {:induction false} AtMost(keys: seq<nat>, n: nat)
    requires forall i, j :: 0 <= i < j < |keys| ==> keys[i] < keys[j]
    requires forall i :: 0 <= i < |keys| ==> keys[i] < n
    ensures |keys| <= n
    decreases n
  {
    if keys == [] {
    } else {
      assert 0 <= keys[|keys| - 1] < n;
      AtMost(keys[..|keys| - 1], n - 1);
    }
  }

  /** Each chunk has at least one byte. */
  lemma {:induction false} ChunksBelowSize(chunks: seq<Chunk>)
    requires forall i :: 0 <= i < |chunks| ==> |chunks[i].data| > 0
    ensures |chunks| <= ActualSize(chunks)
  {
    if chunks == [] {
    } else {
      ChunksBelowSize(chunks[..|chunks| - 1]);
    }
  }

  lemma ChunksNotEmpty(cfg: Config, chunks: seq<Chunk>, pos: nat)
    requires cfg.Valid() && CoversTo(cfg, chunks, pos)
    ensures |chunks| <= |cfg.file|
  {
    hide Cut, ActualSize;
    CutSizes(cfg.file, cfg.bufferSize);
    forall i | 0 <= i < |chunks|
      ensures |chunks[i].data| > 0
    {
      assert Cut(cfg.file, cfg.bufferSize)[i] == Payloads(chunks)[i];
    }
    ChunksBelowSize(chunks);
  }

  /** The resume list has at most one entry per byte of the file. */
  lemma ListBounded(cfg: Config, s: System)
    requires Inv(cfg, s)
    ensures |Listed(s.record.preCreated)| <= |cfg.file|
  {
    hide CallInv, Complete, CoversTo;
    ChunksNotEmpty(cfg, s.chunks, s.record.actualFileSize);
    var keys := Sorted(s.record.preCreated.Keys);
    assert forall i :: 0 <= i < |keys| ==> keys[i] in keys;
    AtMost(keys, |s.chunks|);
  }

  lemma ResumeWorks(cfg: Config, r: Record, c: Call, action: ForwarderAction)
    requires ForwarderCanStep(c, action) && (action.List? || action.ConfirmResumed? || action.SendResumed?)
    requires |Listed(r.preCreated)| <= |cfg.file|
    ensures Work(cfg, ForwarderStep(r, c, action)) < Work(cfg, c)
  {
    hide ReaderWork, QueueWork, Listed, ChunksOf;
  }

  lemma PassWorks(cfg: Config, r: Record, c: Call, action: ForwarderAction)
    requires ForwarderCanStep(c, action) && !action.List? && !action.ConfirmResumed? && !action.SendResumed?
    ensures Work(cfg, ForwarderStep(r, c, action)) < Work(cfg, c)
  {
    hide ReaderWork, Listed, ChunksOf;
  }

  lemma ForwarderWorks(cfg: Config, s: System, action: ForwarderAction)
    requires Inv(cfg, s) && Enabled(cfg, s, ByForwarder(action))
    ensures Work(cfg, ForwarderStep(s.record, s.call, action)) < Work(cfg, s.call)
  {
    hide Inv, Work, ForwarderStep;
    if action.List? || action.ConfirmResumed? || action.SendResumed? {
      ListBounded(cfg, s);
      ResumeWorks(cfg, s.record, s.call, action);
    } else {
      PassWorks(cfg, s.record, s.call, action);
    }
  }

  lemma UploaderWorks(cfg: Config, s: System, action: UploaderAction)
    requires Inv(cfg, s) && Enabled(cfg, s, ByUploader(action))
    ensures Work(cfg, UploaderStep(s.call, action)) < Work(cfg, s.call)
  {
    hide RecordInv, SplitInv, CallInv, Complete, ReaderWork, ForwarderWork, QueueWork;
  }

  /** Every step that does not end the call, whatever it decides, leaves less to do. */
  lemma WorkDecreases(cfg: Config, s: System, step: Step)
    requires Inv(cfg, s) && Enabled(cfg, s, step) && s.phase == Running && Do(cfg, s, step).phase == Running
    ensures Work(cfg, Do(cfg, s, step).call) < Work(cfg, s.call)
  {
    hide Inv, ReaderStep, ForwarderStep, UploaderStep, ReaderWork, ForwarderWork, UploaderWork, QueueWork;
    match step
    case ByReader(action) => ReaderWorks(cfg, s, action);
    case ByForwarder(action) => ForwarderWorks(cfg, s, action);
    case ByUploader(action) => UploaderWorks(cfg, s, action);
    case _ =>
  }

  lemma {:induction false} WorkOverPath(cfg: Config, s: System, steps: seq<Step>, t: System)
    requires cfg.Valid() && Inv(cfg, s) && s.phase == Running && Path(cfg, s, steps, t)
    requires forall i :: 0 <= i < |steps| ==> !steps[i].Join?
    ensures Work(cfg, t.call) + |steps| <= Work(cfg, s.call)
    decreases |steps|
  {
    hide Inv, Work, ReaderStep, ForwarderStep, UploaderStep;
    if steps == [] {
    } else {
      assert !steps[0].Join?;
      StepKeeps(cfg, s, steps[0]);
      WorkDecreases(cfg, s, steps[0]);
      WorkOverPath(cfg, Do(cfg, s, steps[0]), steps[1..], t);
    }
  }

  /** A call ends: whatever its steps decide, at most 12 per byte of the file, and 7, come before its Join. */
  lemma CallEnds(cfg: Config, s: System, steps: seq<Step>, t: System)
    requires Reachable(cfg, s) && Enabled(cfg, s, Start)
    requires Path(cfg, Do(cfg, s, Start), steps, t)
    requires forall i :: 0 <= i < |steps| ==> !steps[i].Join?
    ensures |steps| <= 12 * |cfg.file| + 7
  {
    hide Inv, Path;
    ReachableInv(cfg, s);
    StartKeeps(cfg, s);
    WorkOverPath(cfg, Do(cfg, s, Start), steps, t);
  }

  // ---- success

  /** Without an outside cancellation and without a failing operation, nothing of a call on a file that is not
      empty fails, and its end is no failure. */
  lemma SmoothKeepsGoing(cfg: Config, s: System, step: Step)
    requires Inv(cfg, s) && s.phase == Running && !s.call.cancelled && |cfg.file| > 0
    requires ByTheCall(step) && Smooth(step) && Enabled(cfg, s, step)
    ensures !step.Join? ==> Do(cfg, s, step).phase == Running && !Do(cfg, s, step).call.cancelled
    ensures step.Join? ==> Do(cfg, s, step).phase == Finishing
  {
    hide RecordInv, SplitInv, FlightInv, OrderInv, ListedInv, ForwarderShape, Complete, CoversTo, Listed;
    NotAtEndAtZero(cfg, s);
  }

  /** The reader meets the end of the file without a chunk only if the file is empty. */
  lemma NotAtEndAtZero(cfg: Config, s: System)
    requires Inv(cfg, s) && s.phase == Running && |cfg.file| > 0
    ensures s.call.reader.Reading? && s.call.next == 0 ==> s.call.pos < |cfg.file|
  {
  }

  /** In every run of a call that is not cancelled, and in which no operation fails, nothing goes wrong: after any
      steps the call is still running, not cancelled and without a failed goroutine, or it has succeeded. */
  lemma {:induction false} SmoothRun(cfg: Config, s: System, steps: seq<Step>, t: System)
    requires cfg.Valid() && Inv(cfg, s) && s.phase == Running && !s.call.cancelled && |cfg.file| > 0
    requires Path(cfg, s, steps, t)
    requires forall i :: 0 <= i < |steps| ==> ByTheCall(steps[i]) && Smooth(steps[i])
    ensures t.phase == Finishing || (t.phase == Running && !t.call.cancelled && Inv(cfg, t))
    ensures t.phase == Running ==> forall i :: 0 <= i < |steps| ==> !steps[i].Join?
    ensures t.phase == Finishing ==> |steps| > 0 && forall i :: 0 <= i < |steps| - 1 ==> !steps[i].Join?
    decreases |steps|
  {
    hide Inv, Do, Smooth;
    if steps == [] {
    } else {
      var u := Do(cfg, s, steps[0]);
      StepKeeps(cfg, s, steps[0]);
      SmoothKeepsGoing(cfg, s, steps[0]);
      assert steps == [steps[0]] + steps[1..];
      if steps[0].Join? {
        NothingAfterJoin(cfg, u, steps[1..], t);
      } else {
        SmoothRun(cfg, u, steps[1..], t);
      }
    }
  }

  lemma NothingAfterJoin(cfg: Config, u: System, steps: seq<Step>, t: System)
    requires cfg.Valid() && u.phase == Finishing && Path(cfg, u, steps, t)
    requires forall i :: 0 <= i < |steps| ==> ByTheCall(steps[i])
    ensures steps == [] && t == u
  {
    hide Do;
    assert steps != [] ==> ByTheCall(steps[0]);
  }

  /** A call in which nothing fails succeeds: started on a file that is not empty, without an outside cancellation
      or a failing operation, it takes at most 12 steps per byte and 8, whatever the scheduler picks, and when no
      such step is left it has succeeded. */
  lemma SmoothCallSucceeds(cfg: Config, s: System, steps: seq<Step>, t: System)
    requires Reachable(cfg, s) && Enabled(cfg, s, Start) && |cfg.file| > 0
    requires Path(cfg, Do(cfg, s, Start), steps, t)
    requires forall i :: 0 <= i < |steps| ==> ByTheCall(steps[i]) && Smooth(steps[i])
    ensures |steps| <= 12 * |cfg.file| + 8
    ensures t.phase == Finishing || exists step :: ByTheCall(step) && Smooth(step) && Enabled(cfg, t, step)
  {
    hide Inv, Path, Smooth, ByTheCall, Enabled, Work;
    ReachableInv(cfg, s);
    StartKeeps(cfg, s);
    Started(cfg, s);
    var u := Do(cfg, s, Start);
    SmoothRun(cfg, u, steps, t);
    if t.phase == Running {
      CallEnds(cfg, s, steps, t);
      var step := NextStep(cfg, t);
    } else {
      var n := |steps| - 1;
      var v := BeforeLast(cfg, u, steps, t);
      CallEnds(cfg, s, steps[..n], v);
    }
  }

  lemma Started(cfg: Config, s: System)
    requires cfg.Valid() && Enabled(cfg, s, Start)
    ensures Do(cfg, s, Start).phase == Running && !Do(cfg, s, Start).call.cancelled
  {
  }

  /** The state before the last step. */
  lemma {:induction false} BeforeLast(cfg: Config, s: System, steps: seq<Step>, t: System) returns (u: System)
    requires cfg.Valid() && steps != [] && Path(cfg, s, steps, t)
    ensures Path(cfg, s, steps[..|steps| - 1], u)
    decreases |steps|
  {
    hide Do, Enabled;
    if |steps| == 1 {
      u := s;
    } else {
      u := BeforeLast(cfg, Do(cfg, s, steps[0]), steps[1..], t);
      assert steps[..|steps| - 1][1..] == steps[1..][..|steps| - 2];
    }
  }

  /** From every state of a call that is not cancelled, some run commits the file. */
  lemma {:induction false} CanCommit(cfg: Config, s: System) returns (steps: seq<Step>, t: System)
    requires cfg.Valid() && Inv(cfg, s) && s.phase == Running && !s.call.cancelled && |cfg.file| > 0
    ensures Path(cfg, s, steps, t) && t.record.isCommitted
    ensures forall i :: 0 <= i < |steps| ==> Smooth(steps[i])
    decreases Work(cfg, s.call)
  {
    hide Inv, Work, Do, Enabled, ByTheCall, Smooth;
    var step := NextStep(cfg, s);
    var u := Do(cfg, s, step);
    StepKeeps(cfg, s, step);
    SmoothKeepsGoing(cfg, s, step);
    var rest: seq<Step>;
    if step.Join? {
      rest, t := CommitFinishes(cfg, u);
    } else {
      StillRunning(cfg, s, step);
      WorkDecreases(cfg, s, step);
      rest, t := CanCommit(cfg, u);
    }
    steps := [step] + rest;
    assert steps[1..] == rest;
  }

  lemma StillRunning(cfg: Config, s: System, step: Step)
    requires Inv(cfg, s) && s.phase == Running && Enabled(cfg, s, step) && !step.Join?
    ensures Do(cfg, s, step).phase == Running
  {
    hide Inv, ReaderStep, ForwarderStep, UploaderStep;
  }

  lemma CommitFinishes(cfg: Config, u: System) returns (rest: seq<Step>, t: System)
    requires Inv(cfg, u) && u.phase == Finishing
    ensures Path(cfg, u, rest, t) && t.record.isCommitted
    ensures forall i :: 0 <= i < |rest| ==> Smooth(rest[i])
  {
    hide SplitInv, CallInv;
    rest := [Finish(true)];
    t := Do(cfg, u, Finish(true));
    assert rest[1..] == [];
    assert Path(cfg, t, [], t);
  }

  /** After any number of failed calls, an upload of a file that is not empty can still be committed. */
  lemma Recoverable(cfg: Config, s: System) returns (steps: seq<Step>, t: System)
    requires Reachable(cfg, s) && s.phase == Resting && !s.record.isCommitted && |cfg.file| > 0
    ensures Path(cfg, s, steps, t) && t.record.isCommitted
  {
    hide Inv;
    ReachableInv(cfg, s);
    StartKeeps(cfg, s);
    var rest: seq<Step>;
    rest, t := CanCommit(cfg, Do(cfg, s, Start));
    steps := [Start] + rest;
    assert steps[1..] == rest;
  }
}
