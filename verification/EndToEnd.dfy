/** Uploading a file over any number of failing and resumed calls, and downloading it: the two ends together,
    on the older and on the newer path. */
module EndToEnd {
  import opened Base
  import opened Pieces
  import opened Aead
  import opened ErasureCode
  import opened StreamFormat
  import opened StreamSizes
  import opened Stripes
  import opened ProtoScan
  import opened UploadRecord
  import opened PipelineSafety
  import opened ChunkV1
  import P = Pipeline
  import V2 = ChunkV2
  import opened ChunkV2Padding

  /** A chunk to download: its index, the number of its blocks, and the blocks in the order they arrive. */
  datatype ChunkDownload = ChunkDownload(index: nat, blocks: nat, arrivals: seq<Retrieved>)

  /** Blocks uploaded for a chunk arrive as leaves, in some order. */
  ghost predicate Delivers(d: ChunkDownload, raw: seq<Bytes>) {
    d.blocks == |raw| && Arrived(Leaves(raw), d.arrivals)
  }

  // ---- a committed upload

  /** A committed upload's chunks, if each comes back, are the file. */
  lemma ChunksAreTheFile(cfg: P.Config, s: P.System, results: seq<Outcome<Bytes>>)
    requires P.Reachable(cfg, s) && s.record.isCommitted && |results| == |s.chunks|
    requires forall k :: 0 <= k < |s.chunks| ==> results[k] == Ok(s.chunks[k].data)
    ensures Written(results) == Ok(cfg.file)
  {
    hide Cut, Flatten, Written;
    CommitsOnlyComplete(cfg, s);
    FlattenCut(cfg.file, cfg.bufferSize);
    AllWritten(results, Payloads(s.chunks));
  }

  lemma ChunksAtMost(cfg: P.Config, s: P.System)
    requires P.Reachable(cfg, s) && s.record.isCommitted
    ensures forall k :: 0 <= k < |s.chunks| ==> 0 < |s.chunks[k].data| <= cfg.bufferSize
  {
    hide Cut;
    CommitsOnlyComplete(cfg, s);
    CutSizes(cfg.file, cfg.bufferSize);
    assert forall k :: 0 <= k < |s.chunks| ==> Payloads(s.chunks)[k] == s.chunks[k].data;
  }

  /** Whatever was resumed, the chunk at position k of the file was created with index k. */
  lemma IndexedByPosition(cfg: P.Config, s: P.System)
    requires P.Reachable(cfg, s)
    ensures forall k :: 0 <= k < |s.chunks| ==> s.chunks[k].index == k
  {
    RecordAgrees(cfg, s);
  }

  // ---- the older path

  /** What encryption and erasure coding share between upload and download; a chunk's key is derived from its index. */
  datatype Context = Context(settings: Settings, suite: Suite, key: seq<byte>, info: nat -> string)
  {
    ghost predicate Valid() {
      && settings.Valid() && ValidSuite(suite)
      && (settings.encrypted ==> forall i :: suite(key, info(i)).Some?)
    }

    /** The raw blocks of a chunk. */
    ghost function Blocks(index: nat, nonce: Nonce, data: Bytes): seq<Bytes>
      requires Valid()
    {
      RawBlocks(settings, if settings.encrypted then Sealed(suite(key, info(index)).value, nonce, data) else data)
    }

    ghost function Result(d: ChunkDownload): Outcome<Bytes>
      requires Valid()
    {
      if Readable(d.arrivals) then Downloaded(settings, suite, key, d.blocks, d.arrivals, info(d.index))
      else Err(MalformedBlock)
    }

    ghost function Results(downloads: seq<ChunkDownload>): seq<Outcome<Bytes>>
      requires Valid()
    {
      seq(|downloads|, i requires 0 <= i < |downloads| => Result(downloads[i]))
    }
  }

  /** Download: the chunks one after another, up to the first that fails. */
  method Download(x: Context, downloads: seq<ChunkDownload>) returns (r: Outcome<Bytes>)
    requires x.Valid()
    requires forall d :: d in downloads ==> forall a :: a in d.arrivals ==> a.pos < d.blocks
    ensures r == Written(x.Results(downloads))
  {
    hide Readable, Downloaded, Written;
    ghost var results := x.Results(downloads);
    var written: Bytes := [];
    NoneWritten(results);
    for k := 0 to |downloads|
      invariant Written(results[..k]) == Ok(written)
    {
      var d := downloads[k];
      assert d in downloads;
      WrittenNext(results, k);
      var data := DownloadChunkBlocks(x.settings, x.suite, x.key, d.blocks, d.arrivals, x.info(d.index));
      if !data.Ok? {
        FailureStays(results, k + 1);
        return data;
      }
      written := written + data.value;
    }
    assert results[..|downloads|] == results;
    r := Ok(written);
  }

  lemma ChunkComesBack(x: Context, d: ChunkDownload, nonce: Nonce, data: Bytes)
    requires x.Valid() && |data| < 0x2000_0000_0000_0000 && Delivers(d, x.Blocks(d.index, nonce, data))
    ensures x.Result(d) == Ok(data)
  {
    hide Readable, Downloaded, RawBlocks, Arrived, Leaves, Sealed;
    ChunkRoundTrip(x.settings, x.suite, x.key, x.info(d.index), nonce, data, d.arrivals);
  }

  /** Whatever failed and was resumed on the way: once an upload is committed, downloading its chunks in order,
      with the blocks of each arriving in any order, writes exactly the file. A chunk's key is derived at upload
      from the index it was recorded with, and at download from its position in the file's list of chunks. */
  lemma CommittedFileComesBack(cfg: P.Config, s: P.System, x: Context, nonces: seq<Nonce>, downloads: seq<ChunkDownload>)
    requires P.Reachable(cfg, s) && s.record.isCommitted
    requires x.Valid() && cfg.bufferSize == BufferSize(x.settings)
    requires |downloads| == |nonces| == |s.chunks|
    requires forall k :: 0 <= k < |s.chunks| ==>
               && downloads[k].index == k
               && Delivers(downloads[k], x.Blocks(s.chunks[k].index, nonces[k], s.chunks[k].data))
    ensures Written(x.Results(downloads)) == Ok(cfg.file)
  {
    hide Delivers, x.Blocks, x.Result, Written, BufferSize;
    ChunksAtMost(cfg, s);
    IndexedByPosition(cfg, s);
    BufferBounded(x.settings);
    forall k | 0 <= k < |s.chunks|
      ensures x.Results(downloads)[k] == Ok(s.chunks[k].data)
    {
      ChunkComesBack(x, downloads[k], nonces[k], s.chunks[k].data);
    }
    ChunksAreTheFile(cfg, s, x.Results(downloads));
  }

  lemma BufferBounded(s: Settings)
    requires s.Valid()
    ensures 0 < BufferSize(s) < 0x2000_0000_0000_0000
  {
  }

  // ---- the newer path

  datatype Context2 = Context2(coder: Coder, suite: Suite, key: seq<byte>, info: nat -> string)
  {
    ghost predicate Valid() {
      coder.Valid() && ValidSuite(suite) && forall i :: suite(key, info(i)).Some?
    }

    ghost function Blocks(index: nat, nonce: Nonce, data: Bytes): seq<Bytes>
      requires Valid()
    {
      V2.UploadedBlocks(suite(key, info(index)).value, coder, data, nonce)
    }

    /** No padding gets into a block of the chunk's ciphertext. */
    ghost predicate Harmless(index: nat, nonce: Nonce, data: Bytes)
      requires Valid()
    {
      PaddingHarmless(coder.k, Ciphertext(suite(key, info(index)).value, nonce, data))
    }

    ghost function Result(d: ChunkDownload): Outcome<Bytes>
      requires Valid()
    {
      if Readable(d.arrivals) then V2.Downloaded(suite, key, coder, Placed(d.blocks, d.arrivals), info(d.index))
      else Err(MalformedBlock)
    }

    ghost function Results(downloads: seq<ChunkDownload>): seq<Outcome<Bytes>>
      requires Valid()
    {
      seq(|downloads|, i requires 0 <= i < |downloads| => Result(downloads[i]))
    }
  }

  /** Download2: the loop that collects the blocks of a chunk, and then its decoding. */
  method Download2(x: Context2, downloads: seq<ChunkDownload>) returns (r: Outcome<Bytes>)
    requires x.Valid()
    requires forall d :: d in downloads ==> forall a :: a in d.arrivals ==> a.pos < d.blocks
    ensures r == Written(x.Results(downloads))
  {
    hide Readable, V2.Downloaded, Written, Placed;
    ghost var results := x.Results(downloads);
    var written: Bytes := [];
    NoneWritten(results);
    for k := 0 to |downloads|
      invariant Written(results[..k]) == Ok(written)
    {
      var d := downloads[k];
      assert d in downloads;
      WrittenNext(results, k);
      var blocks := Collect(d.blocks, d.arrivals);
      if !blocks.Ok? {
        FailureStays(results, k + 1);
        return Err(blocks.error);
      }
      var data := V2.DownloadChunkBlocksV2(x.suite, x.key, x.coder, blocks.value[..], x.info(d.index));
      if !data.Ok? {
        FailureStays(results, k + 1);
        return data;
      }
      written := written + data.value;
    }
    assert results[..|downloads|] == results;
    r := Ok(written);
  }

  lemma {:induction false} ShardSizesAtMost(k: nat, size: nat, j: nat)
    requires k > 0 && j <= CeilDiv(size, MAX_STRIPE_SIZE)
    ensures ShardSizesFrom(k, size, j) <= if j * 2097152 <= size then size - j * 2097152 else 0
    decreases CeilDiv(size, MAX_STRIPE_SIZE) - j
  {
    if j == CeilDiv(size, MAX_STRIPE_SIZE) {
    } else {
      V2.StripeInside(size, j);
      CeilDivAtMost(Min(MAX_STRIPE_SIZE, size - j * 2097152), k);
      ShardSizesAtMost(k, size, j + 1);
    }
  }

  /** No block is longer than the ciphertext. */
  lemma Blocks2Short(x: Context2, index: nat, nonce: Nonce, data: Bytes)
    requires x.Valid() && 0 < |data| < 0x1_0000_0000
    ensures forall b :: b in x.Blocks(index, nonce, data) ==> |b| < 0x8000_0000_0000_0000
  {
    hide Ciphertext, BlocksOf, RowsOf, ShardSizesFrom, CiphertextSize, CeilDiv, NumBlocks;
    var g := x.suite(x.key, x.info(index)).value;
    var c := Ciphertext(g, nonce, data);
    V2.SizeRecovered(g, x.coder, data, nonce);
    CiphertextShort(|data|);
    ShardSizesAtMost(x.coder.k, |c|, 0);
    forall i | 0 <= i < x.coder.Total()
      ensures |x.Blocks(index, nonce, data)[i]| <= |c|
    {
      ShardSizesSum(x.coder, c, i);
    }
  }

  lemma CiphertextShort(p: nat)
    requires 0 < p < 0x1_0000_0000
    ensures CiphertextSize(p) < 0x2_0000_0000
  {
    CiphertextSizeBounds(p);
    LastDataInRange(p);
  }

  /** One chunk: stream encryption, stripes and column-major blocks, fetched as leaves in any order, give the
      plaintext back when no padding gets into a block, so always when k divides 16. */
  lemma Chunk2ComesBack(x: Context2, d: ChunkDownload, nonce: Nonce, data: Bytes)
    requires x.Valid() && 0 < |data| < 0x1_0000_0000 && (16 % x.coder.k == 0 || x.Harmless(d.index, nonce, data))
    requires Delivers(d, x.Blocks(d.index, nonce, data))
    ensures x.Result(d) == Ok(data)
  {
    hide V2.Downloaded, V2.UploadedBlocks, Leaves, Arrived, Readable, Placed, PaddingHarmless;
    V2.SizeRecovered(x.suite(x.key, x.info(d.index)).value, x.coder, data, nonce);
    if 16 % x.coder.k == 0 {
      V2.ChunkRoundTripFor16(x.suite, x.key, x.coder, data, x.info(d.index), nonce);
    } else {
      HarmlessComesBack(x.suite, x.key, x.coder, data, x.info(d.index), nonce);
    }
    Blocks2Short(x, d.index, nonce, data);
    PlacesLeaves(x.Blocks(d.index, nonce, data), d.arrivals);
  }

  /** The same for files uploaded by Upload2, whose calls run the same three goroutines with its own read size. */
  lemma CommittedFileComesBack2(cfg: P.Config, s: P.System, x: Context2, nonces: seq<Nonce>, downloads: seq<ChunkDownload>)
    requires P.Reachable(cfg, s) && s.record.isCommitted
    requires x.Valid() && cfg.bufferSize == V2.Upload2BufferSize()
    requires |downloads| == |nonces| == |s.chunks|
    requires forall k :: 0 <= k < |s.chunks| ==>
               && downloads[k].index == k
               && Delivers(downloads[k], x.Blocks(s.chunks[k].index, nonces[k], s.chunks[k].data))
               && (16 % x.coder.k == 0 || x.Harmless(s.chunks[k].index, nonces[k], s.chunks[k].data))
    ensures Written(x.Results(downloads)) == Ok(cfg.file)
  {
    hide Delivers, x.Blocks, x.Harmless, x.Result, Written, V2.Upload2BufferSize;
    ChunksAtMost(cfg, s);
    IndexedByPosition(cfg, s);
    Buffer2Bounded();
    forall k | 0 <= k < |s.chunks|
      ensures x.Results(downloads)[k] == Ok(s.chunks[k].data)
    {
      Chunk2ComesBack(x, downloads[k], nonces[k], s.chunks[k].data);
    }
    ChunksAreTheFile(cfg, s, x.Results(downloads));
  }

  lemma Buffer2Bounded()
    ensures V2.Upload2BufferSize() < 0x1_0000_0000
  {
  }
}
