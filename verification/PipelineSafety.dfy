/** What every run of an upload promises: the record is consistent in each state, the chunks are the pieces of
    the file, nothing recorded is lost by a failure, a call that succeeds has uploaded everything in order, and
    only the complete file is committed. */
module PipelineSafety {
  import opened Base
  import opened Pieces
  import opened UploadRecord
  import opened Pipeline
  import opened PipelineFlight
  import opened PipelineInvariant

  lemma {:induction false} PathKeeps(cfg: Config, s: System, steps: seq<Step>, t: System)
    requires cfg.Valid() && Inv(cfg, s) && Path(cfg, s, steps, t)
    ensures Inv(cfg, t)
    decreases |steps|
  {
    hide Inv, Do, Enabled;
    if steps == [] {
    } else {
      StepKeeps(cfg, s, steps[0]);
      PathKeeps(cfg, Do(cfg, s, steps[0]), steps[1..], t);
    }
  }

  /** The invariant holds in every state an upload can be in. */
  lemma ReachableInv(cfg: Config, s: System)
    requires Reachable(cfg, s)
    ensures Inv(cfg, s)
  {
    hide Inv, Path;
    var steps :| Path(cfg, Initial(), steps, s);
    InitialInv(cfg);
    PathKeeps(cfg, Initial(), steps, s);
  }

  /** In every reachable state, also after failures and resumed calls, the counters, sizes and links are those
      of the chunks recorded, and each index below the count is either uploaded or a key of preCreatedChunks,
      never both, with its chunk under that key. */
  lemma RecordAgrees(cfg: Config, s: System)
    requires Reachable(cfg, s)
    ensures s.record.chunkCount == |s.record.links| == |s.chunks|
    ensures s.record.actualFileSize == ActualSize(s.chunks) <= |cfg.file|
    ensures s.record.encodedFileSize == EncodedSize(s.chunks)
    ensures forall i :: 0 <= i < |s.chunks| ==> s.chunks[i].index == i
    ensures forall i :: 0 <= i < |s.chunks| ==>
              s.record.links[i] == Link(s.chunks[i].cid, s.chunks[i].rawDataSize, s.chunks[i].encodedSize)
    ensures forall i: nat :: i in s.record.preCreated || i in s.uploaded <==> i < s.record.chunkCount
    ensures forall i: nat :: i in s.record.preCreated ==> i !in s.uploaded
    ensures forall i: nat :: i in s.record.preCreated ==> s.record.preCreated[i].chunk == s.chunks[i]
  {
    hide CallInv, Complete, ActualSize, EncodedSize, Payloads, Cut;
    ReachableInv(cfg, s);
  }

  /** In every reachable state chunk k holds the bytes [k*B, min((k+1)*B, len)) of the file, B being the read
      buffer size: the chunks recorded by any number of calls have no gap and no overlap. */
  lemma ChunksPartition(cfg: Config, s: System, k: nat)
    requires Reachable(cfg, s) && k < |s.chunks|
    ensures 0 <= k * cfg.bufferSize < |cfg.file|
    ensures s.chunks[k].data == cfg.file[k * cfg.bufferSize..Min(k * cfg.bufferSize + cfg.bufferSize, |cfg.file|)]
  {
    hide CallInv, Complete, SplitInv, Cut, ActualSize, EncodedSize;
    ReachableInv(cfg, s);
    var tail := Cut(cfg.file[s.record.actualFileSize..], cfg.bufferSize);
    assert (Payloads(s.chunks) + tail)[k] == s.chunks[k].data;
    CutAt(cfg.file, cfg.bufferSize, k);
  }

  /** The call's goroutines have all returned, none with an error. */
  predicate Succeeded(s: System) {
    s.phase == Running && AllDone(s.call) && !Failed(s.call)
  }

  /** Whatever failed before, a call that succeeds, and so every commit, covers the whole file: all its pieces
      are recorded and uploaded, nothing is left to upload, and the size to commit is the file's. */
  lemma CommitsOnlyComplete(cfg: Config, s: System)
    requires Reachable(cfg, s) && (Succeeded(s) || s.phase == Finishing || s.record.isCommitted)
    ensures |s.chunks| == CeilDiv(|cfg.file|, cfg.bufferSize)
    ensures Payloads(s.chunks) == Cut(cfg.file, cfg.bufferSize)
    ensures s.record.actualFileSize == |cfg.file| > 0
    ensures s.record.preCreated == map[]
    ensures forall i: nat :: i in s.uploaded <==> i < |s.chunks|
  {
    hide SplitInv, Cut, ReaderInv, FlightInv, OrderInv, ListedInv, ForwarderShape, DoneInv, CoversTo, Payloads;
    ReachableInv(cfg, s);
    if Succeeded(s) {
      JoinKeeps(cfg, s);
    }
    CutAt(cfg.file, cfg.bufferSize, 0);
    NoEmptyFile(cfg, s.chunks);
  }

  lemma NoEmptyFile(cfg: Config, chunks: seq<Chunk>)
    requires cfg.Valid() && chunks != [] && Payloads(chunks) == Cut(cfg.file, cfg.bufferSize)
    ensures |cfg.file| > 0 && |chunks| == |Cut(cfg.file, cfg.bufferSize)|
  {
  }

  /** Two completed uploads of one file, with whatever failures each had, have the same chunk contents. */
  lemma SameAsUninterrupted(cfg: Config, s: System, t: System)
    requires Reachable(cfg, s) && (Succeeded(s) || s.phase == Finishing || s.record.isCommitted)
    requires Reachable(cfg, t) && (Succeeded(t) || t.phase == Finishing || t.record.isCommitted)
    ensures Payloads(s.chunks) == Payloads(t.chunks)
    ensures s.record.actualFileSize == t.record.actualFileSize && s.record.chunkCount == t.record.chunkCount
  {
    hide Succeeded, Cut, Payloads;
    CommitsOnlyComplete(cfg, s);
    CommitsOnlyComplete(cfg, t);
    RecordAgrees(cfg, s);
    RecordAgrees(cfg, t);
  }

  /** In a call that succeeds the uploader has finished the resume list and then every chunk recorded by this
      call, each part once and in index order: a chunk is finished twice only if both parts have it. A fresh
      upload has no resume list, so its chunks are finished exactly once, in index order. */
  lemma FinishedInOrder(cfg: Config, s: System)
    requires Reachable(cfg, s) && Succeeded(s)
    ensures s.call.base <= |s.chunks| && s.call.log == s.call.listed + s.chunks[s.call.base..]
    ensures Ascending(s.call.listed) && Ascending(s.chunks[s.call.base..])
    ensures forall x :: x in s.call.listed ==> x.index < |s.chunks| && s.chunks[x.index] == x
    ensures s.call.base == 0 ==> s.call.log == s.chunks
  {
    hide SplitInv, Cut, ReaderInv, ForwarderShape, Complete, CoversTo, InFlight, RecordInv, Ascending;
    ReachableInv(cfg, s);
    NothingInFlight(s.call);
    assert s.call.log + [] == s.call.log;
    ListedRecorded(s.chunks, s.uploaded, s.call);
    RecordedAscend(cfg, s);
    if s.call.base == 0 {
      assert [] + s.chunks[0..] == s.chunks;
    }
  }

  lemma ListedRecorded(chunks: seq<Chunk>, uploaded: set<nat>, c: Call)
    requires FlightInv(chunks, uploaded, c) && c.base <= |chunks| && c.log == c.listed + chunks[c.base..]
    ensures forall x :: x in c.listed ==> Recorded(chunks, x)
  {
  }

  lemma RecordedAscend(cfg: Config, s: System)
    requires Reachable(cfg, s) && s.call.base <= |s.chunks|
    ensures Ascending(s.chunks[s.call.base..])
  {
    RecordAgrees(cfg, s);
  }

  /** No step forgets a recorded chunk, its link or that it was uploaded. */
  lemma NothingForgotten(cfg: Config, s: System, step: Step)
    requires cfg.Valid() && Enabled(cfg, s, step)
    ensures s.chunks <= Do(cfg, s, step).chunks && s.record.links <= Do(cfg, s, step).record.links
    ensures s.uploaded <= Do(cfg, s, step).uploaded
  {
    hide ReaderStep, ForwarderStep;
  }

  /** Over any number of steps, whatever fails in them: what was recorded and uploaded stays. */
  lemma {:induction false} NothingLost(cfg: Config, s: System, steps: seq<Step>, t: System)
    requires cfg.Valid() && Path(cfg, s, steps, t)
    ensures s.chunks <= t.chunks && s.record.links <= t.record.links && s.uploaded <= t.uploaded
    decreases |steps|
  {
    hide Do, Enabled;
    if steps == [] {
    } else {
      NothingForgotten(cfg, s, steps[0]);
      NothingLost(cfg, Do(cfg, s, steps[0]), steps[1..], t);
    }
  }

  /** A committed upload is final: no step is possible any more. */
  lemma CommittedIsFinal(cfg: Config, s: System, step: Step)
    requires Reachable(cfg, s) && s.record.isCommitted
    ensures !Enabled(cfg, s, step)
  {
    hide RecordInv, SplitInv, CallInv, Complete;
    ReachableInv(cfg, s);
  }
}
