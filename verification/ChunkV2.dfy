/** Uploading and downloading one chunk with stream encryption and per-stripe erasure coding:
    createChunkUpload2 and downloadChunkBlocksV2, without the node calls between them. */
module ChunkV2 {
  import opened Base
  import opened Pieces
  import opened Aead
  import opened StreamSizes
  import opened StreamFormat
  import opened StreamEnc
  import opened ErasureCode
  import opened Stripes

  const TARGET_CIPHERTEXT_SIZE := 16000000

  /** Upload2 reads up to this many bytes into a buffer of TARGET_CIPHERTEXT_SIZE bytes capacity. */
  function Upload2BufferSize(): (n: nat)
    ensures n > 0
    ensures MaxPlaintextSizeForTarget(TARGET_CIPHERTEXT_SIZE) == Ok(n)
  {
    FitsIffAtMostMax(1, TARGET_CIPHERTEXT_SIZE);
    MaxPlaintextSizeForTarget(TARGET_CIPHERTEXT_SIZE).value
  }

  /** A read of n bytes fits the buffer after encryption exactly when n is at most the read size of Upload2,
      so no read of Upload2 makes Encrypt return BufferTooSmall, and a larger read size would. */
  lemma Upload2ReadsFit(n: nat)
    requires n > 0
    ensures CiphertextSize(n) <= TARGET_CIPHERTEXT_SIZE <==> n <= Upload2BufferSize()
  {
    FitsIffAtMostMax(n, TARGET_CIPHERTEXT_SIZE);
  }

  // ---- what is stored and what is read back

  function UploadedBlocks(g: Cipher, c: Coder, p: seq<byte>, nonce: Nonce): seq<Bytes>
    requires c.k > 0
  {
    BlocksOf(c, Ciphertext(g, nonce, p))
  }

  lemma OverheadNat(size: nat)
    ensures Overhead(size) >= 0
  {
  }

  /** The ciphertext size that the download computes from the header in the first blocks.
      The header buffer is sliced to its full size even when the blocks held fewer bytes. */
  function SizeInBlocks(c: Coder, blocks: seq<Bytes>): nat
    requires c.k <= |blocks|
  {
    var found := FirstBytes(blocks[..c.k], HEADER_SIZE);
    var size := ParseHeader(found + Zeros(HEADER_SIZE - |found|)).value.size;
    OverheadNat(size);
    size + Overhead(size)
  }

  function Downloaded(suite: Suite, key: seq<byte>, c: Coder, blocks: seq<Bytes>, info: string): Outcome<seq<byte>>
    requires c.k > 0
  {
    if |blocks| != c.Total() then Err(BlockCount)
    else
      match Reassembled(c, blocks, SizeInBlocks(c, blocks), 0, 0)
      case Panic => Panic
      case Err(e) => Err(e)
      case Ok(ciphertext) => Decrypted(suite, key, ciphertext, info, VERSION)
  }

  /** The header in the first blocks gives back the ciphertext's size. */
  lemma SizeRecovered(g: Cipher, c: Coder, p: seq<byte>, nonce: Nonce)
    requires g.Valid() && c.Valid() && 0 < |p| < 0x1_0000_0000
    ensures |UploadedBlocks(g, c, p, nonce)| == c.Total()
    ensures SizeInBlocks(c, UploadedBlocks(g, c, p, nonce)) == CiphertextSize(|p|) == |Ciphertext(g, nonce, p)|
  {
    hide CiphertextSize, SealedFrom, NumBlocks, LastPadded, ParseHeader, BlocksOf, FirstBytes, Header;
    var data := Ciphertext(g, nonce, p);
    LastDataInRange(|p|);
    SealedFromPosition(g, nonce, p, 0);
    CiphertextSizeBounds(|p|);
    HeaderInColumns(c, data, HEADER_SIZE);
    assert data[..HEADER_SIZE] == Header(nonce, |p|);
    var h := Header(nonce, |p|);
    assert h + Zeros(HEADER_SIZE - |h|) == h + [];
    ParseHeaderOfHeader(nonce, |p|, []);
  }

  /** A chunk read back equals the chunk uploaded when k divides the size of every ciphertext stripe. */
  lemma ChunkRoundTrip(suite: Suite, key: seq<byte>, c: Coder, p: seq<byte>, info: string, nonce: Nonce)
    requires ValidSuite(suite) && suite(key, info).Some? && c.Valid()
    requires 0 < |p| < 0x1_0000_0000
    requires Divides(c.k, Cut(Ciphertext(suite(key, info).value, nonce, p), MAX_STRIPE_SIZE))
    ensures Downloaded(suite, key, c, UploadedBlocks(suite(key, info).value, c, p, nonce), info) == Ok(p)
  {
    hide CiphertextSize, Ciphertext, SizeInBlocks, Reassembled, BlocksOf, Decrypted, Divides, Cut;
    var g := suite(key, info).value;
    SizeRecovered(g, c, p, nonce);
    ReassemblesIff(c, Ciphertext(g, nonce, p));
    RoundTripIff(suite, key, info, nonce, p);
  }

  /** For every plaintext and any number of stripes, the round trip holds when k divides 16. */
  lemma ChunkRoundTripFor16(suite: Suite, key: seq<byte>, c: Coder, p: seq<byte>, info: string, nonce: Nonce)
    requires ValidSuite(suite) && suite(key, info).Some? && c.Valid()
    requires 0 < |p| < 0x1_0000_0000
    requires 16 % c.k == 0
    ensures Downloaded(suite, key, c, UploadedBlocks(suite(key, info).value, c, p, nonce), info) == Ok(p)
  {
    hide CiphertextSize, Ciphertext, Downloaded, UploadedBlocks, NumBlocks, Divides, Cut, LastPadded;
    var g := suite(key, info).value;
    LastDataInRange(|p|);
    SealedFromPosition(g, nonce, p, 0);
    CiphertextSizeBounds(|p|);
    DividesAligned(c.k, Ciphertext(g, nonce, p));
    ChunkRoundTrip(suite, key, c, p, info, nonce);
  }

  lemma DividesAligned(k: nat, data: Bytes)
    requires k > 0 && 16 % k == 0 && |data| % 16 == 0
    ensures Divides(k, Cut(data, MAX_STRIPE_SIZE))
  {
    hide Cut, CeilDiv;
    var stripes := Cut(data, MAX_STRIPE_SIZE);
    CutCount(data, MAX_STRIPE_SIZE);
    forall s | s in stripes
      ensures |s| % k == 0
    {
      var j :| 0 <= j < |stripes| && stripes[j] == s;
      StripeSizes(data, j);
      StripeAligned(|data|, j);
      MultipleOf(k, |s|);
    }
  }

  lemma StripeAligned(size: nat, j: nat)
    requires size % 16 == 0 && j * 2097152 < size
    ensures Min(MAX_STRIPE_SIZE, size - j * 2097152) % 16 == 0
  {
  }

  lemma MultipleOf(k: nat, x: nat)
    requires k > 0 && 16 % k == 0 && x % 16 == 0
    ensures x % k == 0
  {
    var b, a := 16 / k, x / 16;
    assert 16 == k * b;
    assert x == 16 * a == (b * a) * k;
    DivIs(x, k, b * a);
  }

  /** Ciphertext sizes are such that k divides every stripe of every ciphertext exactly when k divides 16:
      the first two sizes, 48 and 64, already force it. */
  lemma DividesAlwaysIff(k: nat)
    requires k > 0
    ensures (forall n: nat, data: Bytes :: n > 0 && |data| == CiphertextSize(n) ==> Divides(k, Cut(data, MAX_STRIPE_SIZE)))
       <==> 16 % k == 0
  {
    hide NumBlocks, LastPadded, Divides, Cut, CiphertextSize;
    if 16 % k == 0 {
      forall n: nat, data: Bytes | n > 0 && |data| == CiphertextSize(n)
        ensures Divides(k, Cut(data, MAX_STRIPE_SIZE))
      {
        CiphertextSizeBounds(n);
        DividesAligned(k, data);
      }
    } else if forall n: nat, data: Bytes :: n > 0 && |data| == CiphertextSize(n) ==> Divides(k, Cut(data, MAX_STRIPE_SIZE)) {
      SmallestSizes();
      SingleStripe(k, Zeros(48));
      SingleStripe(k, Zeros(64));
      DifferenceDivides(k);
    }
  }

  lemma SmallestSizes()
    ensures CiphertextSize(1) == 48 && CiphertextSize(16) == 64
  {
  }

  lemma SingleStripe(k: nat, data: Bytes)
    requires k > 0 && 0 < |data| <= MAX_STRIPE_SIZE
    ensures Divides(k, Cut(data, MAX_STRIPE_SIZE)) <==> |data| % k == 0
  {
    hide Cut;
    CutOne(data, MAX_STRIPE_SIZE);
    assert data in [data];
  }

  lemma DifferenceDivides(k: nat)
    requires k > 0 && 48 % k == 0 && 64 % k == 0
    ensures 16 % k == 0
  {
  }

  // ---- the operations

  /** SplitStripes. */
  method SplitStripes(data: Bytes, maxStripeSize: nat) returns (result: array<Bytes>)
    requires maxStripeSize > 0
    ensures fresh(result)
    ensures result[..] == Cut(data, maxStripeSize)
  {
    hide Cut;
    var n := CeilDiv(|data|, maxStripeSize);
    CutCount(data, maxStripeSize);
    result := new Bytes[n];
    for i := 0 to n
      invariant result[..i] == Cut(data, maxStripeSize)[..i]
    {
      CutAt(data, maxStripeSize, i);
      var start := i * maxStripeSize;
      var end := Min(start + maxStripeSize, |data|);
      result[i] := data[start..end];
      TailCons(Cut(data, maxStripeSize), i);
      TailCons(result[..], i);
    }
  }

  /** The loop that erasure-codes every stripe. */
  method EncodeStripes(c: Coder, stripes: seq<Bytes>) returns (rows: seq<seq<Bytes>>)
    requires c.Valid() && [] !in stripes
    ensures rows == Rows(c, stripes)
  {
    hide Rows, Row, EncodedRaw, Uniform;
    rows := [];
    RowsShape(c, stripes);
    for i := 0 to |stripes|
      invariant rows == Rows(c, stripes)[..i]
    {
      RowShape(c, stripes[i]);
      var shards := EncodedRaw(c, stripes[i]);
      TailCons(Rows(c, stripes), i);
      rows := rows + [shards.value];
    }
  }

  /** The loops that sum the shard sizes and lay the shards out column-major. */
  method LayOut(rows: seq<seq<Bytes>>, numShards: nat) returns (data: Bytes, blockSize: nat)
    requires Rectangular(rows, numShards) && numShards > 0
    ensures blockSize == BlockSize(rows)
    ensures data == Flatten(Columns(rows, numShards))
  {
    hide Column, BlockSize, Uniform, Rectangular;
    blockSize := 0;
    EmptyColumns(rows);
    for j := 0 to |rows|
      invariant blockSize == BlockSize(rows[..j])
    {
      RowLength(rows, numShards, j);
      ColumnSplit(rows, 0, j);
      blockSize := blockSize + |rows[j][0]|;
    }
    assert rows[..|rows|] == rows;
    data := [];
    for i := 0 to numShards
      invariant data == Flatten(Columns(rows, i))
    {
      var column: Bytes := [];
      for j := 0 to |rows|
        invariant column == Column(rows[..j], i)
        invariant data == Flatten(Columns(rows, i)) + column
      {
        RowLength(rows, numShards, j);
        ColumnExtends(rows, i, j);
        column := column + rows[j][i];
        data := data + rows[j][i];
      }
      assert rows[..|rows|] == rows;
      FlattenSnoc(Columns(rows, i), Column(rows, i));
    }
  }

  lemma EmptyColumns(rows: seq<seq<Bytes>>)
    ensures BlockSize(rows[..0]) == 0
    ensures forall i: nat :: Column(rows[..0], i) == []
  {
  }

  lemma ColumnExtends(rows: seq<seq<Bytes>>, i: nat, j: nat)
    requires j < |rows| && i < |rows[j]|
    ensures Column(rows[..0], i) == []
    ensures Column(rows[..j + 1], i) == Column(rows[..j], i) + rows[j][i]
  {
    TailCons(rows, j);
    ColumnConcat(rows[..j], [rows[j]], i);
    OneRow(rows[j], i);
  }

  /** createChunkUpload2's data path: encrypts the caller's buffer, stripes and erasure-codes it, and has the
      column-major result cut into blocks of one shard column each. */
  method CreateChunkUpload2(suite: Suite, key: seq<byte>, c: Coder, buf: array<byte>, len: nat, info: string,
                            random: Option<Nonce>)
    returns (r: Outcome<seq<Bytes>>)
    requires ValidSuite(suite) && c.Valid() && len <= buf.Length
    modifies buf
    ensures r.Ok? <==> len > 0 && CiphertextSize(len) <= buf.Length && suite(key, info).Some? && random.Some?
    ensures !r.Ok? ==> r == Err(if len == 0 then EmptyPlaintext else if buf.Length < CiphertextSize(len) then BufferTooSmall
                                else if suite(key, info).None? then NoCipher else NoRandomness)
    ensures r.Ok? ==> r.value == UploadedBlocks(suite(key, info).value, c, old(buf[..len]), random.value)
  {
    hide CiphertextSize, NumBlocks, LastPadded, Ciphertext, Cut, Rows, BlockSize, Columns, Rectangular;
    var n := Encrypt(suite, key, buf, len, info, random);
    if !n.Ok? {
      return Err(n.error);
    }
    var data := buf[..n.value];
    SomeStripes(data);
    var stripes := SplitStripes(data, MAX_STRIPE_SIZE);
    RowsShape(c, stripes[..]);
    var rows := EncodeStripes(c, stripes[..]);
    var columnMajor, blockSize := LayOut(rows, c.Total());
    CutsIntoColumns(rows, c.Total());
    r := Ok(Cut(columnMajor, blockSize));
  }

  lemma SomeStripes(data: Bytes)
    requires data != []
    ensures Cut(data, MAX_STRIPE_SIZE) != [] && [] !in Cut(data, MAX_STRIPE_SIZE)
  {
  }

  /** The loop that collects the header from the first blocks. */
  method CollectHeader(blocks: seq<Bytes>) returns (headerBuf: Bytes)
    ensures headerBuf == FirstBytes(blocks, HEADER_SIZE)
  {
    headerBuf := [];
    var i := 0;
    while i < |blocks|
      invariant 0 <= i <= |blocks|
      invariant headerBuf == FirstBytes(blocks[..i], HEADER_SIZE)
    {
      var need := HEADER_SIZE - |headerBuf|;
      MoreBytes(blocks, i, HEADER_SIZE);
      headerBuf := headerBuf + blocks[i][..Min(need, |blocks[i]|)];
      i := i + 1;
      if |headerBuf| >= HEADER_SIZE {
        EnoughBytes(blocks, i, HEADER_SIZE);
        return;
      }
    }
    assert blocks[..|blocks|] == blocks;
  }

  lemma MoreBytes(blocks: seq<Bytes>, i: nat, need: nat)
    requires i < |blocks|
    ensures |FirstBytes(blocks[..i], need)| <= need
    ensures var found := FirstBytes(blocks[..i], need);
            found + blocks[i][..Min(need - |found|, |blocks[i]|)] == FirstBytes(blocks[..i + 1], need)
  {
    TailCons(blocks, i);
    FlattenSnoc(blocks[..i], blocks[i]);
  }

  lemma EnoughBytes(blocks: seq<Bytes>, i: nat, need: nat)
    requires i <= |blocks| && |FirstBytes(blocks[..i], need)| == need
    ensures FirstBytes(blocks[..i], need) == FirstBytes(blocks, need)
  {
    assert blocks == blocks[..i] + blocks[i..];
    FlattenConcat(blocks[..i], blocks[i..]);
  }

  lemma {:induction false} SegmentForm(blocks: seq<Bytes>, off: nat, size: nat)
    ensures if forall i :: 0 <= i < |blocks| ==> off + size <= |blocks[i]|
            then && Segment(blocks, off, size).Ok? && |Segment(blocks, off, size).value| == |blocks|
                 && forall i :: 0 <= i < |blocks| ==> Segment(blocks, off, size).value[i] == blocks[i][off..off + size]
            else Segment(blocks, off, size) == Panic
  {
    if blocks == [] {
    } else {
      SegmentForm(blocks[1..], off, size);
      assert forall i :: 1 <= i < |blocks| ==> blocks[i] == blocks[1..][i - 1];
    }
  }

  /** The loop that slices the shards of one stripe out of every block; a slice out of range stops the run. */
  method SliceShards(blocks: seq<Bytes>, off: nat, size: nat) returns (r: Outcome<array<Bytes>>)
    ensures match Segment(blocks, off, size)
      case Ok(shards) => r.Ok? && fresh(r.value) && r.value[..] == shards
      case other => other == Panic && r == Panic
  {
    hide Segment;
    SegmentForm(blocks, off, size);
    var shards := new Bytes[|blocks|];
    for i := 0 to |blocks|
      invariant forall k :: 0 <= k < i ==> off + size <= |blocks[k]| && shards[k] == blocks[k][off..off + size]
    {
      if off + size > |blocks[i]| {
        return Panic;
      }
      shards[i] := blocks[i][off..off + size];
    }
    r := Ok(shards);
  }

  /** The loop over the stripes: cuts the shards of each out of the blocks, decodes them and appends the data. */
  method ReassembleStripes(c: Coder, blocks: seq<Bytes>, ciphertextSize: nat) returns (r: Outcome<Bytes>)
    requires c.k > 0 && |blocks| == c.Total()
    ensures r == Reassembled(c, blocks, ciphertextSize, 0, 0)
  {
    hide ExtractedRaw, Recovered, Segment, CeilDiv;
    var ciphertext: Bytes := [];
    var numStripes := CeilDiv(ciphertextSize, MAX_STRIPE_SIZE);
    var blockOffset := 0;
    ghost var spec := Reassembled(c, blocks, ciphertextSize, 0, 0);
    PrependNothing(spec);
    for j := 0 to numStripes
      invariant spec == Prepend(ciphertext, Reassembled(c, blocks, ciphertextSize, j, blockOffset))
    {
      StripeInside(ciphertextSize, j);
      var stripeSize := Min(MAX_STRIPE_SIZE, ciphertextSize - j * 2097152);
      var shardSize := CeilDiv(stripeSize, c.k);
      var shards := SliceShards(blocks, blockOffset, shardSize);
      if !shards.Ok? {
        return Panic;
      }
      var stripeData := ExtractDataRaw(c, shards.value, stripeSize);
      if !stripeData.Ok? {
        return stripeData;
      }
      PrependTwice(ciphertext, stripeData.value,
                  Reassembled(c, blocks, ciphertextSize, j + 1, blockOffset + shardSize));
      ciphertext := ciphertext + stripeData.value;
      blockOffset := blockOffset + shardSize;
    }
    assert ciphertext + [] == ciphertext;
    r := Ok(ciphertext);
  }

  lemma StripeInside(size: nat, j: nat)
    requires j < CeilDiv(size, MAX_STRIPE_SIZE)
    ensures j * 2097152 < size
  {
  }

  /** downloadChunkBlocksV2's data path, from the retrieved blocks to the bytes it writes out. */
  method DownloadChunkBlocksV2(suite: Suite, key: seq<byte>, c: Coder, blocks: seq<Bytes>, info: string)
    returns (r: Outcome<seq<byte>>)
    requires ValidSuite(suite) && c.k > 0
    ensures r == Downloaded(suite, key, c, blocks, info)
  {
    hide Overhead, FirstBytes, Reassembled, Decrypted;
    if |blocks| != c.Total() {
      return Err(BlockCount);
    }
    var headerBuf := CollectHeader(blocks[..c.k]);
    var header := ParseHeader(headerBuf + Zeros(HEADER_SIZE - |headerBuf|));
    var plaintextSize := header.value.size;
    OverheadNat(plaintextSize);
    var ciphertextSize := plaintextSize + Overhead(plaintextSize);
    var reassembled := ReassembleStripes(c, blocks, ciphertextSize);
    if !reassembled.Ok? {
      return reassembled;
    }
    var ciphertext := new byte[|reassembled.value|](i requires 0 <= i < |reassembled.value| => reassembled.value[i]);
    assert ciphertext[..] == reassembled.value;
    var n := DecryptAllBlocks(suite, key, ciphertext, info, VERSION);
    if !n.Ok? {
      return if n.Panic? then Panic else Err(n.error);
    }
    r := Ok(ciphertext[..n.value]);
  }
}
