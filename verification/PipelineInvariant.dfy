/** What holds in every state of an upload, over any number of calls and failures: the invariant, and that
    every step keeps it. */
module PipelineInvariant {
  import opened Base
  import opened Pieces
  import opened UploadRecord
  import opened Pipeline
  import opened PipelineFlight

  // ---- the invariant

  /** Every index below the count is either uploaded or a key of preCreatedChunks, and not both. */
  ghost predicate SplitInv(pre: map<nat, ChunkWithTx>, chunks: seq<Chunk>, uploaded: set<nat>) {
    && (forall i: nat :: i in pre || i in uploaded <==> i < |chunks|)
    && (forall i: nat :: i in pre ==> i !in uploaded)
    && (forall i: nat :: i in pre ==> i < |chunks| && pre[i].chunk == chunks[i])
  }

  /** The chunks are the first pieces of the file, and the rest of the file holds the other pieces. */
  ghost predicate CoversTo(cfg: Config, chunks: seq<Chunk>, pos: nat)
    requires cfg.Valid()
  {
    && pos == ActualSize(chunks) <= |cfg.file|
    && (forall i :: 0 <= i < |chunks| ==> chunks[i].index == i)
    && Payloads(chunks) + Cut(cfg.file[pos..], cfg.bufferSize) == Cut(cfg.file, cfg.bufferSize)
  }

  /** The counters, the sizes and the DAG's links agree with the chunks recorded. */
  ghost predicate RecordInv(cfg: Config, r: Record, chunks: seq<Chunk>)
    requires cfg.Valid()
  {
    && r.chunkCount == |chunks| == |r.links|
    && (forall i :: 0 <= i < |chunks| ==> r.links[i] == LinkOf(chunks[i]))
    && r.encodedFileSize == EncodedSize(chunks)
    && CoversTo(cfg, chunks, r.actualFileSize)
  }

  predicate Active(reader: Reader) { !reader.Skipping? && reader != ReaderDone(false) }

  ghost predicate ReaderInv(cfg: Config, chunks: seq<Chunk>, reader: Reader, pos: nat, next: nat)
    requires cfg.Valid()
  {
    Active(reader) ==>
      && next == |chunks| + |Fresh(reader)|
      && CoversTo(cfg, chunks + Fresh(reader), pos)
      && |Kept(reader)| <= |chunks| && chunks[|chunks| - |Kept(reader)|..] == Kept(reader)
      && ReaderShape(cfg, reader)
      && (AtEnd(reader) ==> pos == |cfg.file|)
      && (reader.ReaderDone? ==> next > 0)
  }

  ghost predicate ReaderShape(cfg: Config, reader: Reader) {
    match reader
    case Reading(batch) => |batch| < cfg.batchSize
    case Creating(batch, _) => batch != []
    case Recording(batch, done, _, _) => done < |batch|
    case Sending(batch, _, _) => batch != []
    case _ => true
  }

  predicate AtEnd(reader: Reader) {
    match reader
    case Creating(_, stop) => stop
    case Recording(_, _, _, stop) => stop
    case Sending(_, _, stop) => stop
    case ReaderDone(ok) => ok
    case _ => false
  }

  ghost predicate Recorded(chunks: seq<Chunk>, c: Chunk) {
    c.index < |chunks| && chunks[c.index] == c
  }

  ghost predicate ForwarderShape(c: Call) {
    && (c.forwarder.Resuming? ==> c.forwarder.list != [])
    && (c.forwarder.Forwarding? ==> c.forwarder.chunks != [])
    && (c.forwarder.Confirming? ==> c.forwarder.batch.chunks != [])
    && (forall b :: b in c.queue ==> b.chunks != [])
  }

  /** Only recorded chunks travel, and what the uploader has finished is uploaded. */
  ghost predicate FlightInv(chunks: seq<Chunk>, uploaded: set<nat>, c: Call) {
    && (forall x :: x in InFlight(c) ==> Recorded(chunks, x))
    && (forall x :: x in c.log ==> Recorded(chunks, x) && x.index in uploaded)
  }

  /** While no goroutine has failed, what the uploader has finished and what is on its way to it is, in this
      order, the resume list and then the chunks recorded by this call. */
  ghost predicate OrderInv(chunks: seq<Chunk>, c: Call) {
    && c.base <= |chunks|
    && (c.reader.Skipping? ==> c.base == |chunks|)
    && (!Failed(c) ==> c.log + InFlight(c) == c.listed + chunks[c.base..])
  }

  ghost predicate Ascending(chunks: seq<Chunk>) {
    forall i, j :: 0 <= i < j < |chunks| ==> chunks[i].index < chunks[j].index
  }

  /** The resume list, in ascending order, has every chunk left over from earlier calls that is not yet
      uploaded; a first call has none. */
  ghost predicate ListedInv(pre: map<nat, ChunkWithTx>, chunks: seq<Chunk>, c: Call) {
    && (c.continuation <==> c.base > 0)
    && (!c.continuation ==> c.listed == [])
    && Ascending(c.listed)
    && (c.forwarder.Listing? ==> c.listed == [] && c.log == [] && InHand(c.uploader) == [])
    && (!c.forwarder.Listing? ==> forall i: nat :: i in pre && i < c.base ==> i < |chunks| && chunks[i] in c.listed)
  }

  /** A channel is seen closed only after its sender has returned, and an error cancels the call. */
  ghost predicate DoneInv(c: Call) {
    && (c.forwarder == ForwarderDone(true) ==> c.reader.ReaderDone? && c.queue == [])
    && (c.uploader == UploaderDone(true) ==> c.forwarder.ForwarderDone?)
    && (Failed(c) ==> c.cancelled)
  }

  /** The whole file is recorded and uploaded. */
  ghost predicate Complete(cfg: Config, s: System)
    requires cfg.Valid()
  {
    && s.chunks != []
    && Payloads(s.chunks) == Cut(cfg.file, cfg.bufferSize)
    && s.record.actualFileSize == |cfg.file|
    && s.record.preCreated == map[]
    && (forall i: nat :: i in s.uploaded <==> i < |s.chunks|)
  }

  ghost predicate CallInv(cfg: Config, s: System)
    requires cfg.Valid()
  {
    && ReaderInv(cfg, s.chunks, s.call.reader, s.call.pos, s.call.next)
    && ForwarderShape(s.call)
    && FlightInv(s.chunks, s.uploaded, s.call)
    && OrderInv(s.chunks, s.call)
    && ListedInv(s.record.preCreated, s.chunks, s.call)
    && DoneInv(s.call)
  }

  ghost predicate Inv(cfg: Config, s: System) {
    && cfg.Valid()
    && RecordInv(cfg, s.record, s.chunks)
    && SplitInv(s.record.preCreated, s.chunks, s.uploaded)
    && (s.phase == Running ==> CallInv(cfg, s))
    && (s.phase == Finishing || s.record.isCommitted ==> Complete(cfg, s))
    && (s.record.isCommitted ==> s.phase == Resting)
  }

  // ---- the first state, and starting a call

  lemma InitialInv(cfg: Config)
    requires cfg.Valid()
    ensures Inv(cfg, Initial())
  {
    assert cfg.file[0..] == cfg.file;
    assert Payloads([]) + Cut(cfg.file, cfg.bufferSize) == Cut(cfg.file, cfg.bufferSize);
  }

  lemma StartKeeps(cfg: Config, s: System)
    requires Inv(cfg, s) && Enabled(cfg, s, Start)
    ensures Inv(cfg, Do(cfg, s, Start))
  {
    hide CoversTo, Complete, SplitInv;
    var c := NewCall(s.record);
    assert c.log + InFlight(c) == [] == c.listed + s.chunks[c.base..];
  }

  /** A step of a running call that commits nothing. */
  lemma RunningOn(cfg: Config, s: System, t: System)
    requires Inv(cfg, s) && s.phase == Running && t.phase == Running
    requires t.record.isCommitted == s.record.isCommitted
    requires RecordInv(cfg, t.record, t.chunks) && SplitInv(t.record.preCreated, t.chunks, t.uploaded)
    requires CallInv(cfg, t)
    ensures Inv(cfg, t)
  {
  }

  // ---- the reader's position

  predicate NextPiece(cfg: Config, pos: nat, x: Chunk)
    requires cfg.Valid()
  {
    pos < |cfg.file| && x.data == cfg.file[pos..pos + Min(cfg.bufferSize, |cfg.file| - pos)]
  }

  lemma CutFirst(cfg: Config, pos: nat, x: Chunk)
    requires cfg.Valid() && NextPiece(cfg, pos, x)
    ensures pos + |x.data| <= |cfg.file|
    ensures Cut(cfg.file[pos..], cfg.bufferSize) == [x.data] + Cut(cfg.file[pos + |x.data|..], cfg.bufferSize)
  {
    var rest := cfg.file[pos..];
    assert x.data == rest[..|x.data|] && cfg.file[pos + |x.data|..] == rest[|x.data|..];
  }

  lemma CoversNext(cfg: Config, chunks: seq<Chunk>, pos: nat, x: Chunk)
    requires cfg.Valid() && CoversTo(cfg, chunks, pos) && NextPiece(cfg, pos, x) && x.index == |chunks|
    ensures CoversTo(cfg, chunks + [x], pos + |x.data|)
  {
    hide NextPiece, Cut, Payloads;
    SizesSnoc(chunks, x);
    CutFirst(cfg, pos, x);
    var more := Cut(cfg.file[pos + |x.data|..], cfg.bufferSize);
    assert Payloads(chunks) + ([x.data] + more) == Payloads(chunks) + [x.data] + more;
  }

  lemma FirstPiece(f: Bytes, size: nat)
    requires size > 0 && Cut(f, size) != []
    ensures |Cut(f, size)[0]| <= |f|
    ensures Cut(f, size) == [Cut(f, size)[0]] + Cut(f[|Cut(f, size)[0]|..], size)
  {
  }

  lemma PayloadAt(chunks: seq<Chunk>, x: Chunk, more: seq<Chunk>, tail: seq<Bytes>)
    ensures (Payloads(chunks + [x] + more) + tail)[|chunks|] == x.data
    ensures forall ps :: Payloads(chunks) + ps == Payloads(chunks + [x] + more) + tail ==> ps != [] && ps[0] == x.data
  {
  }

  /** What covers the file up to some position covers it up to every earlier chunk's end. */
  lemma CoversPrefix(cfg: Config, chunks: seq<Chunk>, at: nat, x: Chunk, more: seq<Chunk>, pos: nat)
    requires cfg.Valid() && CoversTo(cfg, chunks, at) && CoversTo(cfg, chunks + [x] + more, pos)
    ensures x.index == |chunks| && CoversTo(cfg, chunks + [x], at + |x.data|)
  {
    hide Cut, Payloads;
    assert (chunks + [x] + more)[|chunks|] == x;
    var rest := cfg.file[at..];
    PayloadAt(chunks, x, more, Cut(cfg.file[pos..], cfg.bufferSize));
    FirstPiece(rest, cfg.bufferSize);
    CoversLonger(cfg, chunks, at, x);
  }

  lemma CoversLonger(cfg: Config, chunks: seq<Chunk>, at: nat, x: Chunk)
    requires cfg.Valid() && CoversTo(cfg, chunks, at) && x.index == |chunks| && at + |x.data| <= |cfg.file|
    requires Cut(cfg.file[at..], cfg.bufferSize) == [x.data] + Cut(cfg.file[at..][|x.data|..], cfg.bufferSize)
    ensures CoversTo(cfg, chunks + [x], at + |x.data|)
  {
  }

  // ---- the reader's actions

  ghost predicate ReaderKept(cfg: Config, chunks: seq<Chunk>, c: Call)
    requires cfg.Valid()
  {
    ReaderInv(cfg, chunks, c.reader, c.pos, c.next)
  }

  lemma BatchGrows(cfg: Config, chunks: seq<Chunk>, batch: seq<Chunk>, pos: nat, next: nat, x: Chunk)
    requires cfg.Valid() && ReaderInv(cfg, chunks, Reading(batch), pos, next) && |batch| < cfg.batchSize
    requires NextPiece(cfg, pos, x) && x.index == next
    ensures var more := batch + [x];
            var reader := if |more| == cfg.batchSize then AfterBatch(more, false) else Reading(more);
            ReaderInv(cfg, chunks, reader, pos + |x.data|, next + 1)
  {
    hide CoversTo, NextPiece;
    CoversNext(cfg, chunks + batch, pos, x);
    assert chunks + (batch + [x]) == chunks + batch + [x];
  }

  lemma BatchEnds(cfg: Config, chunks: seq<Chunk>, batch: seq<Chunk>, pos: nat, next: nat)
    requires cfg.Valid() && ReaderInv(cfg, chunks, Reading(batch), pos, next)
    requires pos >= |cfg.file| && next > 0
    ensures ReaderInv(cfg, chunks, AfterBatch(batch, true), pos, next)
  {
  }

  /** Reading a chunk, or the end of the file. */
  lemma ReadKeeps(cfg: Config, chunks: seq<Chunk>, c: Call, action: ReaderAction)
    requires cfg.Valid() && ReaderCanStep(cfg, c, action) && action.Read? && ReaderKept(cfg, chunks, c)
    ensures ReaderKept(cfg, chunks, ReadNext(cfg, c, action))
  {
    hide ReaderInv, AfterBatch;
    FailedReader(cfg, chunks, c.pos, c.next);
    if action.ok && c.pos < |cfg.file| {
      var n := Min(cfg.bufferSize, |cfg.file| - c.pos);
      var x := Chunk(c.next, cfg.file[c.pos..c.pos + n], action.cid, action.rawDataSize, action.encodedSize);
      BatchGrows(cfg, chunks, c.reader.batch, c.pos, c.next, x);
    } else if action.ok && c.next > 0 {
      BatchEnds(cfg, chunks, c.reader.batch, c.pos, c.next);
    }
  }

  lemma FailedReader(cfg: Config, chunks: seq<Chunk>, pos: nat, next: nat)
    requires cfg.Valid()
    ensures ReaderInv(cfg, chunks, ReaderDone(false), pos, next)
  {
  }

  lemma SkipKeeps(cfg: Config, s: System, ok: bool)
    requires Inv(cfg, s) && Enabled(cfg, s, ByReader(Skip(ok)))
    ensures ReaderKept(cfg, s.chunks, ReaderStep(cfg, s.record, s.call, Skip(ok)))
  {
    hide SplitInv, FlightInv, DoneInv, Complete, ForwarderShape, Cut, Payloads;
    assert s.chunks + [] == s.chunks;
    if !s.call.continuation {
      assert s.chunks == [];
    }
  }

  /** CreateTx, Send, HandOff and ReaderQuits move or drop chunks, without reading or recording any. */
  lemma PassOnKeeps(cfg: Config, s: System, action: ReaderAction)
    requires Inv(cfg, s) && Enabled(cfg, s, ByReader(action))
    requires action.CreateTx? || action.Send? || action.HandOff? || action.ReaderQuits?
    ensures ReaderKept(cfg, s.chunks, ReaderStep(cfg, s.record, s.call, action))
  {
    hide RecordInv, SplitInv, FlightInv, OrderInv, ListedInv, DoneInv, Complete, CoversTo, ForwarderShape;
    var batch := s.call.reader.batch;
    assert batch[0..] == batch && batch[..0] == [];
  }

  /** Recording moves one chunk from the reader's unrecorded chunks to the end of the recorded ones. */
  lemma RecordShifts(cfg: Config, chunks: seq<Chunk>, c: Call)
    requires cfg.Valid() && c.reader.Recording? && ReaderKept(cfg, chunks, c)
    ensures var x := c.reader.batch[c.reader.done];
            var after := AfterRecording(c.reader.batch, c.reader.done + 1, c.reader.tx, c.reader.stop);
            ReaderKept(cfg, chunks + [x], c.(reader := after))
  {
    hide CoversTo, Fresh, Kept;
    var x := c.reader.batch[c.reader.done];
    var after := AfterRecording(c.reader.batch, c.reader.done + 1, c.reader.tx, c.reader.stop);
    Recorded1(c.reader.batch, c.reader.done, c.reader.tx, c.reader.stop);
    assert chunks + ([x] + Fresh(after)) == chunks + [x] + Fresh(after);
    var at := |chunks| - |Kept(c.reader)|;
    assert (chunks + [x])[at..] == chunks[at..] + [x];
  }

  /** The chunk recorded next is the next piece of the file, under the next free index. */
  lemma RecordsNext(cfg: Config, r: Record, chunks: seq<Chunk>, c: Call)
    requires cfg.Valid() && c.reader.Recording? && ReaderKept(cfg, chunks, c) && RecordInv(cfg, r, chunks)
    ensures var x := c.reader.batch[c.reader.done];
            x.index == |chunks| && RecordInv(cfg, PreCreated(r, x, c.reader.tx), chunks + [x])
  {
    hide CoversTo, Kept;
    var x := c.reader.batch[c.reader.done];
    var more := c.reader.batch[c.reader.done + 1..];
    TailCons(c.reader.batch, c.reader.done);
    assert chunks + Fresh(c.reader) == chunks + [x] + more;
    CoversPrefix(cfg, chunks, r.actualFileSize, x, more, c.pos);
    SizesSnoc(chunks, x);
  }

  lemma RecordSplits(r: Record, chunks: seq<Chunk>, uploaded: set<nat>, x: Chunk, tx: nat)
    requires SplitInv(r.preCreated, chunks, uploaded) && x.index == |chunks|
    ensures SplitInv(PreCreated(r, x, tx).preCreated, chunks + [x], uploaded)
  {
  }

  lemma RecordFlight(chunks: seq<Chunk>, uploaded: set<nat>, c: Call, d: Call, x: Chunk)
    requires FlightInv(chunks, uploaded, c) && OrderInv(chunks, c) && x.index == |chunks|
    requires InFlight(d) == InFlight(c) + [x]
    requires d.log == c.log && d.base == c.base && d.listed == c.listed && !d.reader.Skipping? && (Failed(c) ==> Failed(d))
    ensures FlightInv(chunks + [x], uploaded, d) && OrderInv(chunks + [x], d)
  {
    hide InFlight, Failed;
    assert (chunks + [x])[c.base..] == chunks[c.base..] + [x];
    assert c.log + (InFlight(c) + [x]) == c.log + InFlight(c) + [x];
    assert c.listed + (chunks[c.base..] + [x]) == c.listed + chunks[c.base..] + [x];
  }

  lemma RecordListed(r: Record, chunks: seq<Chunk>, c: Call, d: Call, x: Chunk, tx: nat)
    requires ListedInv(r.preCreated, chunks, c) && x.index == |chunks| && c.base <= |chunks|
    requires d.continuation == c.continuation && d.base == c.base && d.listed == c.listed && d.log == c.log
    requires d.forwarder == c.forwarder && d.uploader == c.uploader
    ensures ListedInv(PreCreated(r, x, tx).preCreated, chunks + [x], d)
  {
  }

  lemma RecordKeeps(cfg: Config, s: System)
    requires Inv(cfg, s) && Enabled(cfg, s, ByReader(RecordChunk))
    ensures Inv(cfg, Do(cfg, s, ByReader(RecordChunk)))
  {
    hide RecordInv, SplitInv, FlightInv, ListedInv, Complete, CoversTo, InFlight, ReaderInv;
    var c := s.call;
    var x, tx := c.reader.batch[c.reader.done], c.reader.tx;
    var t := Do(cfg, s, ByReader(RecordChunk));
    RecordShifts(cfg, s.chunks, c);
    RecordsNext(cfg, s.record, s.chunks, c);
    RecordSplits(s.record, s.chunks, s.uploaded, x, tx);
    ReaderMoves(cfg, s.record, c, RecordChunk);
    RecordFlight(s.chunks, s.uploaded, c, t.call, x);
    RecordListed(s.record, s.chunks, c, t.call, x, tx);
    RunningOn(cfg, s, t);
  }

  lemma SameFlight(chunks: seq<Chunk>, uploaded: set<nat>, pre: map<nat, ChunkWithTx>, c: Call, d: Call)
    requires FlightInv(chunks, uploaded, c) && OrderInv(chunks, c) && ListedInv(pre, chunks, c)
    requires d.log == c.log && d.base == c.base && d.listed == c.listed && d.continuation == c.continuation
    requires d.reader.Skipping? ==> c.reader.Skipping?
    requires d.forwarder.Listing? <==> c.forwarder.Listing?
    requires d.forwarder.Listing? ==> InHand(d.uploader) == InHand(c.uploader)
    requires Failed(c) ==> Failed(d)
    requires InFlight(d) == InFlight(c) || (Failed(d) && forall x :: x in InFlight(d) ==> x in InFlight(c))
    ensures FlightInv(chunks, uploaded, d) && OrderInv(chunks, d) && ListedInv(pre, chunks, d)
  {
  }

  lemma ReaderActionKeeps(cfg: Config, s: System, action: ReaderAction)
    requires Inv(cfg, s) && Enabled(cfg, s, ByReader(action)) && !action.RecordChunk?
    ensures ReaderKept(cfg, s.chunks, ReaderStep(cfg, s.record, s.call, action))
  {
    hide RecordInv, SplitInv, FlightInv, OrderInv, ListedInv, DoneInv, Complete, ReaderInv, ForwarderShape, ReadNext;
    match action
    case Skip(ok) => SkipKeeps(cfg, s, ok);
    case Read(_, _, _, _) => ReadKeeps(cfg, s.chunks, s.call, action);
    case _ => PassOnKeeps(cfg, s, action);
  }

  /** What an action of the reader leaves as it is. */
  lemma ReaderLeaves(cfg: Config, r: Record, c: Call, action: ReaderAction)
    requires cfg.Valid() && ReaderCanStep(cfg, c, action)
    ensures var d := ReaderStep(cfg, r, c, action);
            && d.log == c.log && d.base == c.base && d.listed == c.listed && d.continuation == c.continuation
            && d.uploader == c.uploader && !d.reader.Skipping?
            && (d.forwarder == c.forwarder || (c.forwarder.Receiving? && d.forwarder.Confirming?))
            && (Failed(c) ==> Failed(d))
            && (action.ReaderQuits? ==> Failed(d))
  {
    hide Min;
  }

  lemma ReaderKeepsShape(cfg: Config, s: System, action: ReaderAction)
    requires Inv(cfg, s) && Enabled(cfg, s, ByReader(action))
    ensures ForwarderShape(ReaderStep(cfg, s.record, s.call, action))
    ensures DoneInv(ReaderStep(cfg, s.record, s.call, action))
  {
    hide RecordInv, SplitInv, FlightInv, OrderInv, ListedInv, Complete, CoversTo, Fresh, Kept, Min;
  }

  lemma ReaderKeeps(cfg: Config, s: System, action: ReaderAction)
    requires Inv(cfg, s) && Enabled(cfg, s, ByReader(action))
    ensures Inv(cfg, Do(cfg, s, ByReader(action)))
  {
    hide RecordInv, SplitInv, FlightInv, OrderInv, ListedInv, Complete, ReaderInv, ForwarderShape, DoneInv,
         InFlight, Failed, ReaderStep, Kept;
    if action.RecordChunk? {
      RecordKeeps(cfg, s);
    } else {
      ReaderActionKeeps(cfg, s, action);
      ReaderKeepsShape(cfg, s, action);
      ReaderLeaves(cfg, s.record, s.call, action);
      ReaderMoves(cfg, s.record, s.call, action);
      SameFlight(s.chunks, s.uploaded, s.record.preCreated, s.call, ReaderStep(cfg, s.record, s.call, action));
      RunningOn(cfg, s, Do(cfg, s, ByReader(action)));
    }
  }

  // ---- the forwarder's actions

  lemma ForwarderLeaves(r: Record, c: Call, action: ForwarderAction)
    requires ForwarderCanStep(c, action)
    ensures var d := ForwarderStep(r, c, action);
            && d.log == c.log && d.base == c.base && d.continuation == c.continuation
            && d.reader == c.reader && d.pos == c.pos && d.next == c.next
            && (action.List? || d.listed == c.listed)
            && !d.forwarder.Listing? && (c.forwarder.Listing? <==> action.List?)
            && (Failed(c) ==> Failed(d))
            && (Drops(action) ==> Failed(d))
  {
    hide Listed, ChunksOf;
  }

  lemma ForwarderKeepsShape(cfg: Config, s: System, action: ForwarderAction)
    requires Inv(cfg, s) && Enabled(cfg, s, ByForwarder(action))
    ensures ForwarderShape(ForwarderStep(s.record, s.call, action))
    ensures DoneInv(ForwarderStep(s.record, s.call, action))
  {
    hide RecordInv, SplitInv, FlightInv, OrderInv, ListedInv, Complete, ReaderInv, Listed, ChunksOf;
  }

  /** The list read from preCreatedChunks: all its keys, each with the chunk recorded under it. */
  lemma ListedHolds(pre: map<nat, ChunkWithTx>, chunks: seq<Chunk>, uploaded: set<nat>)
    requires SplitInv(pre, chunks, uploaded) && forall i :: 0 <= i < |chunks| ==> chunks[i].index == i
    ensures forall x :: x in ChunksOf(Listed(pre)) ==> Recorded(chunks, x)
    ensures forall i: nat :: i in pre ==> i < |chunks| && chunks[i] in ChunksOf(Listed(pre))
    ensures Ascending(ChunksOf(Listed(pre)))
  {
    hide SplitInv;
    var list := Listed(pre);
    var out := ChunksOf(list);
    forall k | 0 <= k < |out|
      ensures out[k].index == Sorted(pre.Keys)[k]
    {
      AtKey(pre, chunks, uploaded, Sorted(pre.Keys)[k]);
    }
    forall x | x in out
      ensures Recorded(chunks, x)
    {
      var k :| 0 <= k < |out| && out[k] == x;
      AtKey(pre, chunks, uploaded, Sorted(pre.Keys)[k]);
    }
    forall i: nat | i in pre
      ensures i < |chunks| && chunks[i] in out
    {
      assert i in Sorted(pre.Keys);
      var k :| 0 <= k < |list| && Sorted(pre.Keys)[k] == i;
      AtKey(pre, chunks, uploaded, i);
      assert out[k] == chunks[i];
    }
  }

  lemma AtKey(pre: map<nat, ChunkWithTx>, chunks: seq<Chunk>, uploaded: set<nat>, i: nat)
    requires SplitInv(pre, chunks, uploaded) && i in pre
    ensures i < |chunks| && pre[i].chunk == chunks[i]
  {
  }

  lemma EmptyList()
    ensures ChunksOf([]) == []
  {
  }

  lemma ListedFlight(chunks: seq<Chunk>, uploaded: set<nat>, c: Call, d: Call)
    requires FlightInv(chunks, uploaded, c) && OrderInv(chunks, c) && c.log == c.listed == []
    requires InFlight(d) == d.listed + InFlight(c) && forall x :: x in d.listed ==> Recorded(chunks, x)
    requires d.log == c.log && d.base == c.base && d.reader == c.reader && (Failed(c) ==> Failed(d))
    ensures FlightInv(chunks, uploaded, d) && OrderInv(chunks, d)
  {
    hide InFlight, Failed, Recorded;
    assert d.log + InFlight(d) == d.listed + (c.log + InFlight(c));
    assert d.listed + (c.listed + chunks[c.base..]) == d.listed + chunks[c.base..];
  }

  /** What the forwarder lists is recorded, and has every chunk that an earlier call left over. */
  lemma ListGivesAll(cfg: Config, s: System)
    requires Inv(cfg, s) && Enabled(cfg, s, ByForwarder(List))
    ensures var d := ForwarderStep(s.record, s.call, List);
            && (forall x :: x in d.listed ==> Recorded(s.chunks, x))
            && ListedInv(s.record.preCreated, s.chunks, d)
            && s.call.log == s.call.listed == [] && InHand(s.call.uploader) == []
  {
    hide SplitInv, Complete, ReaderInv, ForwarderShape, DoneInv, FlightInv, OrderInv, InFlight, Listed, ChunksOf, Recorded;
    EmptyList();
    ListedHolds(s.record.preCreated, s.chunks, s.uploaded);
  }

  lemma ListKeeps(cfg: Config, s: System)
    requires Inv(cfg, s) && Enabled(cfg, s, ByForwarder(List))
    ensures var d := ForwarderStep(s.record, s.call, List);
            && FlightInv(s.chunks, s.uploaded, d) && OrderInv(s.chunks, d)
            && ListedInv(s.record.preCreated, s.chunks, d)
  {
    hide SplitInv, RecordInv, Complete, ReaderInv, ForwarderShape, DoneInv, FlightInv, OrderInv, ListedInv,
         InFlight, ForwarderStep;
    var d := ForwarderStep(s.record, s.call, List);
    ListGivesAll(cfg, s);
    ForwarderMoves(s.record, s.call, List);
    ForwarderLeaves(s.record, s.call, List);
    ListedFlight(s.chunks, s.uploaded, s.call, d);
  }

  lemma ForwarderKeeps(cfg: Config, s: System, action: ForwarderAction)
    requires Inv(cfg, s) && Enabled(cfg, s, ByForwarder(action))
    ensures Inv(cfg, Do(cfg, s, ByForwarder(action)))
  {
    hide RecordInv, SplitInv, FlightInv, OrderInv, Complete, ReaderInv, ForwarderShape, DoneInv, Failed, ForwarderStep;
    var d := ForwarderStep(s.record, s.call, action);
    ForwarderKeepsShape(cfg, s, action);
    ForwarderLeaves(s.record, s.call, action);
    if action.List? {
      ListKeeps(cfg, s);
    } else {
      ForwarderMoves(s.record, s.call, action);
      SameFlight(s.chunks, s.uploaded, s.record.preCreated, s.call, d);
    }
    RunningOn(cfg, s, Do(cfg, s, ByForwarder(action)));
  }

  // ---- the uploader's actions

  lemma UploaderLeaves(c: Call, action: UploaderAction)
    requires UploaderCanStep(c, action)
    ensures var d := UploaderStep(c, action);
            && d.base == c.base && d.continuation == c.continuation && d.listed == c.listed
            && d.reader == c.reader && d.pos == c.pos && d.next == c.next && d.forwarder == c.forwarder
            && d.log == (if action == Upload(true) then c.log + [c.uploader.chunk] else c.log)
            && (Failed(c) ==> Failed(d))
            && (action == Upload(false) ==> Failed(d))
            && InHand(d.uploader) == []
  {
  }

  lemma UploaderKeepsShape(cfg: Config, s: System, action: UploaderAction)
    requires Inv(cfg, s) && Enabled(cfg, s, ByUploader(action))
    ensures ForwarderShape(UploaderStep(s.call, action)) && DoneInv(UploaderStep(s.call, action))
  {
    hide RecordInv, SplitInv, FlightInv, OrderInv, ListedInv, Complete, ReaderInv;
  }

  lemma UploadedKeeps(cfg: Config, s: System)
    requires Inv(cfg, s) && Enabled(cfg, s, ByUploader(Upload(true)))
    ensures var t := Do(cfg, s, ByUploader(Upload(true)));
            && SplitInv(t.record.preCreated, t.chunks, t.uploaded)
            && ListedInv(t.record.preCreated, t.chunks, t.call)
  {
    hide RecordInv, OrderInv, Complete, ReaderInv, ForwarderShape, DoneInv, Pending, InQueue, Kept;
    var x := s.call.uploader.chunk;
    assert x == InHand(s.call.uploader)[0];
    assert x in InFlight(s.call);
  }

  lemma UploadedFlight(chunks: seq<Chunk>, uploaded: set<nat>, c: Call, d: Call, x: Chunk)
    requires FlightInv(chunks, uploaded, c) && OrderInv(chunks, c)
    requires InFlight(c) == [x] + InFlight(d) && d.log == c.log + [x]
    requires d.base == c.base && d.listed == c.listed && d.reader == c.reader && (Failed(c) ==> Failed(d))
    ensures FlightInv(chunks, uploaded + {x.index}, d) && OrderInv(chunks, d)
  {
    hide InFlight, Failed, Recorded;
    assert c.log + ([x] + InFlight(d)) == c.log + [x] + InFlight(d);
  }

  lemma UploaderKeeps(cfg: Config, s: System, action: UploaderAction)
    requires Inv(cfg, s) && Enabled(cfg, s, ByUploader(action))
    ensures Inv(cfg, Do(cfg, s, ByUploader(action)))
  {
    hide SplitInv, FlightInv, OrderInv, ListedInv, Complete, ReaderInv, ForwarderShape, DoneInv, Failed,
         UploaderStep, CoversTo, InFlight;
    var d := UploaderStep(s.call, action);
    UploaderKeepsShape(cfg, s, action);
    UploaderLeaves(s.call, action);
    UploaderMoves(s.call, action);
    if action == Upload(true) {
      UploadedKeeps(cfg, s);
      UploadedFlight(s.chunks, s.uploaded, s.call, d, s.call.uploader.chunk);
    } else {
      NotListing(cfg, s, action);
      SameFlight(s.chunks, s.uploaded, s.record.preCreated, s.call, d);
    }
    RunningOn(cfg, s, Do(cfg, s, ByUploader(action)));
  }

  lemma NotListing(cfg: Config, s: System, action: UploaderAction)
    requires Inv(cfg, s) && Enabled(cfg, s, ByUploader(action))
    ensures s.call.forwarder.Listing? ==> InHand(s.call.uploader) == []
  {
  }

  // ---- the end of a call

  /** When all three have returned without an error, the whole file is recorded and uploaded. */
  lemma JoinKeeps(cfg: Config, s: System)
    requires Inv(cfg, s) && Enabled(cfg, s, Join)
    ensures Inv(cfg, Do(cfg, s, Join))
  {
    hide SplitInv, CoversTo, ListedInv, InFlight;
    if !Failed(s.call) {
      NothingInFlight(s.call);
      assert s.call.log + [] == s.call.log;
      IndexedInOrder(cfg, s.record, s.chunks);
      LeftoversInLog(s.record.preCreated, s.chunks, s.uploaded, s.call);
      NoneLeft(s.record.preCreated, s.chunks, s.uploaded);
      ReadToTheEnd(cfg, s);
    }
  }

  lemma IndexedInOrder(cfg: Config, r: Record, chunks: seq<Chunk>)
    requires cfg.Valid() && RecordInv(cfg, r, chunks)
    ensures forall i :: 0 <= i < |chunks| ==> chunks[i].index == i
  {
  }

  lemma NothingInFlight(c: Call)
    requires AllDone(c) && !Failed(c) && DoneInv(c)
    ensures InFlight(c) == []
  {
  }

  /** Each chunk was on the resume list or recorded by this call, if it was not uploaded before. */
  lemma LeftoversInLog(pre: map<nat, ChunkWithTx>, chunks: seq<Chunk>, uploaded: set<nat>, c: Call)
    requires SplitInv(pre, chunks, uploaded) && FlightInv(chunks, uploaded, c)
    requires ListedInv(pre, chunks, c) && !c.forwarder.Listing?
    requires c.base <= |chunks| && c.log == c.listed + chunks[c.base..]
    requires forall i :: 0 <= i < |chunks| ==> chunks[i].index == i
    ensures forall i: nat :: i in pre ==> i in uploaded
  {
  }

  lemma NoneLeft(pre: map<nat, ChunkWithTx>, chunks: seq<Chunk>, uploaded: set<nat>)
    requires SplitInv(pre, chunks, uploaded)
    requires forall i: nat :: i in pre ==> i in uploaded
    ensures pre == map[]
    ensures forall i: nat :: i in uploaded <==> i < |chunks|
  {
  }

  lemma ReadToTheEnd(cfg: Config, s: System)
    requires cfg.Valid() && RecordInv(cfg, s.record, s.chunks) && s.call.reader == ReaderDone(true)
    requires ReaderKept(cfg, s.chunks, s.call)
    ensures s.chunks != [] && s.record.actualFileSize == |cfg.file|
    ensures Payloads(s.chunks) == Cut(cfg.file, cfg.bufferSize)
  {
  }

  /** Every step keeps the invariant. */
  lemma StepKeeps(cfg: Config, s: System, step: Step)
    requires Inv(cfg, s) && Enabled(cfg, s, step)
    ensures Inv(cfg, Do(cfg, s, step))
  {
    hide RecordInv, SplitInv, FlightInv, OrderInv, ListedInv, ReaderInv, ForwarderShape;
    match step
    case Start => StartKeeps(cfg, s);
    case Cancel => CancelKeeps(cfg, s);
    case ByReader(action) => ReaderKeeps(cfg, s, action);
    case ByForwarder(action) => ForwarderKeeps(cfg, s, action);
    case ByUploader(action) => UploaderKeeps(cfg, s, action);
    case Join => JoinKeeps(cfg, s);
    case Finish(ok) => FinishKeeps(cfg, s, ok);
  }

  lemma CancelKeeps(cfg: Config, s: System)
    requires Inv(cfg, s) && Enabled(cfg, s, Cancel)
    ensures Inv(cfg, Do(cfg, s, Cancel))
  {
    hide RecordInv, SplitInv, ListedInv, ReaderInv, Complete, InFlight;
    var t := Do(cfg, s, Cancel);
    CancelLeaves(s.call);
    SameFlight(s.chunks, s.uploaded, s.record.preCreated, s.call, t.call);
    RunningOn(cfg, s, t);
  }

  lemma CancelLeaves(c: Call)
    ensures InFlight(c.(cancelled := true)) == InFlight(c)
  {
  }

  lemma FinishKeeps(cfg: Config, s: System, ok: bool)
    requires Inv(cfg, s) && Enabled(cfg, s, Finish(ok))
    ensures Inv(cfg, Do(cfg, s, Finish(ok)))
  {
    hide SplitInv, CoversTo, CallInv;
  }
}
