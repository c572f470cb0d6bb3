/** The newer path in bytes and cases: what each stored block holds where, and every outcome of a download, stripe by
    stripe. */
module ChunkV2Bytes {
  import opened Base
  import opened Pieces
  import opened Aead
  import opened StreamSizes
  import opened StreamFormat
  import opened ErasureCode
  import opened Stripes
  import opened ChunkV2

  /** Upload2 reads 15992159 bytes at a time. */
  lemma Upload2Reads()
    ensures Upload2BufferSize() == 15992159
  {
  }

  /** Stripe j of a ciphertext: two MiB, or what is left. */
  function StripeSize(size: nat, j: nat): int { Min(2097152, size - j * 2097152) }

  /** Where the shards of stripe j start in every block, and how long they are. */
  function ShardOffset(k: nat, j: nat): int
    requires k > 0
  {
    j * CeilDiv(2097152, k)
  }

  function ShardSize(k: nat, size: nat, j: nat): nat
    requires k > 0 && StripeSize(size, j) >= 0
  {
    CeilDiv(StripeSize(size, j), k)
  }

  lemma StripeIs(data: Bytes, j: nat)
    requires j < CeilDiv(|data|, 2097152)
    ensures StripeSize(|data|, j) > 0 && 0 <= j * 2097152 < |data| && j * 2097152 + StripeSize(|data|, j) <= |data|
    ensures j < |Cut(data, MAX_STRIPE_SIZE)| && Cut(data, MAX_STRIPE_SIZE)[j] != []
    ensures Cut(data, MAX_STRIPE_SIZE)[j] == data[j * 2097152..j * 2097152 + StripeSize(|data|, j)]
  {
    hide Cut;
    StripeSizes(data, j);
    CutAt(data, MAX_STRIPE_SIZE, j);
  }

  lemma OnlyLastShorter(size: nat, j: nat)
    requires j + 1 < CeilDiv(size, 2097152)
    ensures StripeSize(size, j) == 2097152
  {
    StripeInside(size, j + 1);
  }

  lemma {:induction false} OffsetIs(c: Coder, data: Bytes, j: nat)
    requires c.Valid() && j < CeilDiv(|data|, 2097152)
    ensures j < |RowsOf(c, data)| && ShardOffset(c.k, j) == BlockSize(RowsOf(c, data)[..j])
    decreases j
  {
    hide Cut, Rows, Column, BlockSize, CeilDiv, Row, Uniform, StripeSize;
    CutCount(data, MAX_STRIPE_SIZE);
    if j == 0 {
      BlockSizeEnds(RowsOf(c, data));
      assert ShardOffset(c.k, 0) == 0;
    } else {
      OffsetIs(c, data, j - 1);
      OnlyLastShorter(|data|, j - 1);
      RowInBlocks(c, data, j - 1);
      RowSize(c, data, j - 1);
      ColumnSplit(RowsOf(c, data), 0, j - 1);
      OneMoreShard(c.k, j - 1);
    }
  }

  lemma OneMoreShard(k: nat, j: nat)
    requires k > 0
    ensures ShardOffset(k, j + 1) == ShardOffset(k, j) + CeilDiv(2097152, k)
  {
  }

  lemma RowSize(c: Coder, data: Bytes, j: nat)
    requires c.Valid() && j < CeilDiv(|data|, 2097152)
    ensures j < |RowsOf(c, data)| && |RowsOf(c, data)[j]| == c.k + c.m
    ensures |Shard(RowsOf(c, data)[j], 0)| == CeilDiv(StripeSize(|data|, j), c.k)
    ensures RowsOf(c, data)[j] == Row(c, Cut(data, MAX_STRIPE_SIZE)[j])
    ensures Rectangular(RowsOf(c, data), c.k + c.m)
  {
    hide Cut, CeilDiv, Row;
    CutCount(data, MAX_STRIPE_SIZE);
    StripeIs(data, j);
    PiecesAreNotEmpty(data);
    RowsShape(c, Cut(data, MAX_STRIPE_SIZE));
    RowShape(c, Cut(data, MAX_STRIPE_SIZE)[j]);
  }

  lemma PiecesAreNotEmpty(data: Bytes)
    ensures [] !in Cut(data, MAX_STRIPE_SIZE)
  {
    CutSizes(data, MAX_STRIPE_SIZE);
  }

  /** Shard i of stripe j, and where it is. */
  lemma ShardStored(c: Coder, data: Bytes, i: nat, j: nat)
    requires c.Valid() && i < c.k + c.m && j < CeilDiv(|data|, 2097152)
    ensures j < |RowsOf(c, data)| && |RowsOf(c, data)[j]| == c.k + c.m && StripeSize(|data|, j) > 0
    ensures var off, size := ShardOffset(c.k, j), ShardSize(c.k, |data|, j);
            && 0 <= off && off + size <= |BlocksOf(c, data)[i]|
            && BlocksOf(c, data)[i][off..off + size] == RowsOf(c, data)[j][i]
            && (j + 1 == CeilDiv(|data|, 2097152) ==> off + size == |BlocksOf(c, data)[i]|)
  {
    hide Cut, Column, BlockSize, CeilDiv, Row, RowsOf, Uniform, EncodedRaw, ShardOffset, StripeSize, Columns;
    var rows := RowsOf(c, data);
    StripeIs(data, j);
    RowSize(c, data, j);
    OffsetIs(c, data, j);
    ShardInColumn(rows, c.k + c.m, i, j);
    FirstShard(rows[j]);
    RowCount(c, data);
  }

  /** Where the bytes of stripe j are in the data. */
  function StripeBytes(data: Bytes, j: nat): (stripe: Bytes)
    requires j < CeilDiv(|data|, 2097152)
    ensures 0 <= j * 2097152 && j * 2097152 + StripeSize(|data|, j) <= |data|
    ensures 0 < StripeSize(|data|, j) && stripe == data[j * 2097152..j * 2097152 + StripeSize(|data|, j)]
  {
    StripeIs(data, j);
    data[j * 2097152..j * 2097152 + StripeSize(|data|, j)]
  }

  /** Block i holds, from ShardOffset on, shard i of the encoding of each stripe of the ciphertext, one after the other. */
  lemma StoredBytes(g: Cipher, c: Coder, p: Bytes, nonce: Nonce, i: nat, j: nat)
    requires g.Valid() && c.Valid() && i < c.k + c.m
    requires j < CeilDiv(|Ciphertext(g, nonce, p)|, 2097152)
    ensures var data, blocks := Ciphertext(g, nonce, p), UploadedBlocks(g, c, p, nonce);
            var shards := EncodedRaw(c, StripeBytes(data, j));
            var off, size := ShardOffset(c.k, j), ShardSize(c.k, |data|, j);
            && |blocks| == c.k + c.m && shards.Ok? && |shards.value| == c.k + c.m
            && 0 <= off && off + size <= |blocks[i]| && blocks[i][off..off + size] == shards.value[i]
            && (j + 1 == CeilDiv(|data|, 2097152) ==> off + size == |blocks[i]|)
  {
    hide Ciphertext, Cut, CeilDiv, Row, RowsOf, Uniform, EncodedRaw, ShardOffset, StripeSize, BlocksOf;
    StoredStripe(c, Ciphertext(g, nonce, p), i, j);
  }

  lemma StoredStripe(c: Coder, data: Bytes, i: nat, j: nat)
    requires c.Valid() && i < c.k + c.m && j < CeilDiv(|data|, 2097152)
    ensures var blocks, shards := BlocksOf(c, data), EncodedRaw(c, StripeBytes(data, j));
            var off, size := ShardOffset(c.k, j), ShardSize(c.k, |data|, j);
            && |blocks| == c.k + c.m && shards.Ok? && |shards.value| == c.k + c.m
            && 0 <= off && off + size <= |blocks[i]| && blocks[i][off..off + size] == shards.value[i]
            && (j + 1 == CeilDiv(|data|, 2097152) ==> off + size == |blocks[i]|)
  {
    hide Cut, CeilDiv, Row, RowsOf, Uniform, EncodedRaw, ShardOffset, StripeSize, BlocksOf;
    StripeIs(data, j);
    ShardStored(c, data, i, j);
    RowSize(c, data, j);
    RowShape(c, Cut(data, MAX_STRIPE_SIZE)[j]);
  }

  lemma FirstShard(row: seq<Bytes>)
    requires row != []
    ensures Shard(row, 0) == row[0]
  {
  }

  lemma RowCount(c: Coder, data: Bytes)
    requires c.k > 0
    ensures |RowsOf(c, data)| == CeilDiv(|data|, 2097152)
  {
    hide Cut, Row;
    CutCount(data, MAX_STRIPE_SIZE);
  }

  // ---- every outcome of a download

  /** What stripe j gives: an out-of-range slice if some block is too short for it, and otherwise what extraction gives
      on the shards cut out of the blocks. */
  ghost function StripeResult(c: Coder, blocks: seq<Bytes>, size: nat, j: nat): Outcome<Bytes>
    requires c.k > 0 && StripeSize(size, j) >= 0 && ShardOffset(c.k, j) >= 0
  {
    var off, n := ShardOffset(c.k, j), ShardSize(c.k, size, j);
    if exists b :: b in blocks && |b| < off + n then Panic
    else ExtractedRaw(c, Shards(blocks, off, n), StripeSize(size, j))
  }

  function Shards(blocks: seq<Bytes>, off: nat, n: nat): seq<Bytes>
    requires forall b :: b in blocks ==> off + n <= |b|
  {
    seq(|blocks|, i requires 0 <= i < |blocks| => assert blocks[i] in blocks; blocks[i][off..off + n])
  }

  lemma {:induction false} SegmentIs(blocks: seq<Bytes>, off: nat, n: nat)
    ensures Segment(blocks, off, n) == if exists b :: b in blocks && |b| < off + n then Panic
                                       else Ok(Shards(blocks, off, n))
  {
    if blocks == [] {
    } else {
      SegmentIs(blocks[1..], off, n);
      assert blocks[0] in blocks && forall b :: b in blocks ==> b == blocks[0] || b in blocks[1..];
      assert forall b :: b in blocks[1..] ==> b in blocks;
      if !(exists b :: b in blocks && |b| < off + n) {
        assert Shards(blocks, off, n) == [blocks[0][off..off + n]] + Shards(blocks[1..], off, n);
      }
    }
  }

  lemma Ranges(k: nat, size: nat, j: nat)
    requires k > 0 && j < CeilDiv(size, 2097152)
    ensures StripeSize(size, j) > 0 && ShardOffset(k, j) >= 0
  {
    StripeInside(size, j);
    NotNegative(j, CeilDiv(2097152, k));
  }

  lemma NotNegative(a: nat, b: nat)
    ensures a * b >= 0
  {
  }

  /** The results of the stripes from j on. */
  ghost function ResultsFrom(c: Coder, blocks: seq<Bytes>, size: nat, j: nat): seq<Outcome<Bytes>>
    requires c.k > 0 && j <= CeilDiv(size, 2097152)
    decreases CeilDiv(size, 2097152) - j
  {
    if j == CeilDiv(size, 2097152) then []
    else
      Ranges(c.k, size, j);
      [StripeResult(c, blocks, size, j)] + ResultsFrom(c, blocks, size, j + 1)
  }

  lemma {:induction false} ReassembledFrom(c: Coder, blocks: seq<Bytes>, size: nat, j: nat)
    requires c.k > 0 && j <= CeilDiv(size, 2097152)
    ensures j == CeilDiv(size, 2097152) || ShardOffset(c.k, j) >= 0
    ensures j < CeilDiv(size, 2097152) ==>
              Reassembled(c, blocks, size, j, ShardOffset(c.k, j)) == Written(ResultsFrom(c, blocks, size, j))
    decreases CeilDiv(size, 2097152) - j
  {
    hide Segment, ExtractedRaw, CeilDiv, Written, StripeResult, ShardOffset, StripeSize, Recovered;
    if j == CeilDiv(size, 2097152) {
    } else {
      Ranges(c.k, size, j);
      SegmentIs(blocks, ShardOffset(c.k, j), ShardSize(c.k, size, j));
      WrittenFront(ResultsFrom(c, blocks, size, j));
      ResultsUnfold(c, blocks, size, j);
      ReassembledFrom(c, blocks, size, j + 1);
      OneStripe(c, blocks, size, j);
    }
  }

  lemma ResultsUnfold(c: Coder, blocks: seq<Bytes>, size: nat, j: nat)
    requires c.k > 0 && j < CeilDiv(size, 2097152) && StripeSize(size, j) >= 0 && ShardOffset(c.k, j) >= 0
    ensures var rs := ResultsFrom(c, blocks, size, j);
            && rs != [] && rs[0] == StripeResult(c, blocks, size, j) && rs[1..] == ResultsFrom(c, blocks, size, j + 1)
    ensures j + 1 == CeilDiv(size, 2097152) ==>
              ResultsFrom(c, blocks, size, j + 1) == [] && Written(ResultsFrom(c, blocks, size, j + 1)) == Ok([])
  {
    hide CeilDiv, StripeResult, ShardOffset, StripeSize;
  }

  lemma OneStripe(c: Coder, blocks: seq<Bytes>, size: nat, j: nat)
    requires c.k > 0 && j < CeilDiv(size, 2097152) && StripeSize(size, j) > 0 && ShardOffset(c.k, j) >= 0
    ensures j + 1 == CeilDiv(size, 2097152) || ShardOffset(c.k, j + 1) == ShardOffset(c.k, j) + ShardSize(c.k, size, j)
    ensures var off := ShardOffset(c.k, j); var n := ShardSize(c.k, size, j);
            var x := StripeResult(c, blocks, size, j);
            Reassembled(c, blocks, size, j, off) ==
              if x.Ok? then Prepend(x.value, Reassembled(c, blocks, size, j + 1, off + n)) else x
    ensures j + 1 == CeilDiv(size, 2097152) ==>
              Reassembled(c, blocks, size, j + 1, ShardOffset(c.k, j) + ShardSize(c.k, size, j)) == Ok([])
  {
    hide Segment, ExtractedRaw, CeilDiv, Recovered;
    SegmentIs(blocks, ShardOffset(c.k, j), ShardSize(c.k, size, j));
    OneMoreShard(c.k, j);
    if j + 1 < CeilDiv(size, 2097152) {
      OnlyLastShorter(size, j);
    }
  }

  /** Reassembly is the stripes' results one after another: all of them, or the first that is no success. */
  lemma ReassembledIs(c: Coder, blocks: seq<Bytes>, size: nat)
    requires c.k > 0
    ensures Reassembled(c, blocks, size, 0, 0) == Written(ResultsFrom(c, blocks, size, 0))
  {
    hide Segment, ExtractedRaw, Recovered, StripeResult;
    ReassembledFrom(c, blocks, size, 0);
    assert ShardOffset(c.k, 0) == 0;
  }

  /** The size a download works with: the length in the first 17 bytes of the data blocks, missing ones read as zero, and
      what encrypting that many bytes adds. */
  lemma SizeIsNamed(c: Coder, blocks: seq<Bytes>)
    requires c.k <= |blocks|
    ensures var all := Flatten(blocks[..c.k]);
            var h := if |all| >= 17 then all[..17] else all + Zeros(17 - |all|);
            SizeInBlocks(c, blocks) == Word(h[13..17]) + Overhead(Word(h[13..17]))
  {
    hide Flatten, Overhead, GetBE, Word;
    var all := Flatten(blocks[..c.k]);
    var h := if |all| >= 17 then all[..17] else all + Zeros(17 - |all|);
    assert FirstBytes(blocks[..c.k], HEADER_SIZE) + Zeros(HEADER_SIZE - |FirstBytes(blocks[..c.k], HEADER_SIZE)|) == h;
    GetBEIsWord(h[13..17]);
  }

  /** Every outcome of a download: another number of blocks than shards, what reassembly fails with, and otherwise what
      decrypting the reassembled bytes gives. */
  lemma DownloadOutcomes(suite: Suite, key: seq<byte>, c: Coder, blocks: seq<Bytes>, info: string)
    requires c.k > 0
    ensures var r := Downloaded(suite, key, c, blocks, info);
            if |blocks| != c.k + c.m then r == Err(BlockCount)
            else
              var w := Written(ResultsFrom(c, blocks, SizeInBlocks(c, blocks), 0));
              r == if w.Ok? then Decrypted(suite, key, w.value, info, 1) else w
  {
    hide Reassembled, Decrypted, Written, ResultsFrom, SizeInBlocks;
    if |blocks| == c.k + c.m {
      ReassembledIs(c, blocks, SizeInBlocks(c, blocks));
    }
  }

  /** A stripe whose shards are all there with a parity that is not theirs makes the download fail, when the stripes
      before it are extracted. */
  lemma CorruptionNoticed(suite: Suite, key: seq<byte>, c: Coder, blocks: seq<Bytes>, info: string, j: nat)
    requires c.Valid() && |blocks| == c.k + c.m && j < CeilDiv(SizeInBlocks(c, blocks), 2097152)
    requires StripeSize(SizeInBlocks(c, blocks), j) >= 0 && ShardOffset(c.k, j) >= 0
    requires var rs := ResultsFrom(c, blocks, SizeInBlocks(c, blocks), 0);
             j < |rs| && forall i :: 0 <= i < j ==> rs[i].Ok?
    requires var off, n := ShardOffset(c.k, j), ShardSize(c.k, SizeInBlocks(c, blocks), j);
             && (forall b :: b in blocks ==> off + n <= |b|)
             && IsCorrupted(c, Shards(blocks, off, n))
    ensures Downloaded(suite, key, c, blocks, info) == Err(Corrupted)
  {
    hide Reassembled, Decrypted, Written, SizeInBlocks, IsCorrupted, ShardOffset, StripeSize, CeilDiv, ResultsFrom;
    hide ExtractedRaw, Recovered;
    var size := SizeInBlocks(c, blocks);
    DownloadOutcomes(suite, key, c, blocks, info);
    ResultAt(c, blocks, size, 0, j);
    RejectsCorrupted(c, Shards(blocks, ShardOffset(c.k, j), ShardSize(c.k, size, j)));
    FirstFailureDecides(ResultsFrom(c, blocks, size, 0), j);
  }

  lemma {:induction false} ResultAt(c: Coder, blocks: seq<Bytes>, size: nat, from: nat, j: nat)
    requires c.k > 0 && from <= j < CeilDiv(size, 2097152)
    requires StripeSize(size, j) >= 0 && ShardOffset(c.k, j) >= 0
    ensures |ResultsFrom(c, blocks, size, from)| == CeilDiv(size, 2097152) - from
    ensures ResultsFrom(c, blocks, size, from)[j - from] == StripeResult(c, blocks, size, j)
    decreases j - from
  {
    hide CeilDiv, StripeResult, ShardOffset, StripeSize, ResultsFrom, Written;
    ResultsLength(c, blocks, size, from);
    Ranges(c.k, size, from);
    ResultsUnfold(c, blocks, size, from);
    if from == j {
    } else {
      ResultAt(c, blocks, size, from + 1, j);
    }
  }

  lemma {:induction false} ResultsLength(c: Coder, blocks: seq<Bytes>, size: nat, j: nat)
    requires c.k > 0 && j <= CeilDiv(size, 2097152)
    ensures |ResultsFrom(c, blocks, size, j)| == CeilDiv(size, 2097152) - j
    decreases CeilDiv(size, 2097152) - j
  {
    hide CeilDiv, StripeResult, ShardOffset, StripeSize;
    if j == CeilDiv(size, 2097152) {
    } else {
      Ranges(c.k, size, j);
      ResultsLength(c, blocks, size, j + 1);
    }
  }
}
