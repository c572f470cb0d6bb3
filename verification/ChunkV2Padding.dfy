/** When the padding that ExtractDataRaw leaves inside a reassembled ciphertext matters: exactly which chunks of the
    newer path come back. */
module ChunkV2Padding {
  import opened Base
  import opened Pieces
  import opened Aead
  import opened StreamSizes
  import opened StreamFormat
  import opened ErasureCode
  import opened ParityCode
  import opened Stripes
  import opened ChunkV2

  /** No padding gets into a block that is decrypted: there is none, or there is a single stripe and its padding comes
      behind a full last block. */
  predicate PaddingHarmless(k: nat, data: Bytes)
    requires k > 0
  {
    Divides(k, Cut(data, MAX_STRIPE_SIZE)) || (|data| <= MAX_STRIPE_SIZE && |data| % 32768 == 0)
  }

  /** Otherwise, the first block with padding in it: the first of the second stripe, when full stripes are padded, and
      else the last one. */
  function FirstPaddedBlock(k: nat, data: Bytes): nat
    requires k > 0
  {
    if data == [] then 0 else if |data| > MAX_STRIPE_SIZE && 2097152 % k != 0 then 64 else (|data| - 1) / 32768
  }

  // ---- where the padding is

  lemma LastStripe(k: nat, data: Bytes)
    requires k > 0 && 0 < |data| <= MAX_STRIPE_SIZE
    ensures Padded(k, Cut(data, MAX_STRIPE_SIZE)) == data + Zeros(Padding(k, data))
  {
    hide Cut, Padding;
    CutOne(data, MAX_STRIPE_SIZE);
    assert [data][1..] == [];
    assert Padded(k, [data]) == data + Zeros(Padding(k, data)) + Padded(k, []);
  }

  lemma FirstStripe(k: nat, data: Bytes)
    requires k > 0 && |data| > MAX_STRIPE_SIZE
    ensures var first := data[..MAX_STRIPE_SIZE];
            var more := Padded(k, Cut(data[MAX_STRIPE_SIZE..], MAX_STRIPE_SIZE));
            Padded(k, Cut(data, MAX_STRIPE_SIZE)) == first + Zeros(Padding(k, first)) + more
  {
    hide Padding;
  }

  lemma NoPadding(k: nat, stripe: Bytes)
    requires k > 0
    ensures Padding(k, stripe) == 0 <==> |stripe| % k == 0
  {
    CeilDivBounds(|stripe|, k);
    DividesIff(|stripe|, k, CeilDiv(|stripe|, k));
  }

  /** When full stripes need no padding, all of it is at the end. */
  lemma {:induction false} PaddedAtEnd(k: nat, data: Bytes) returns (pad: nat)
    requires k > 0 && data != [] && (|data| <= MAX_STRIPE_SIZE || 2097152 % k == 0)
    ensures Padded(k, Cut(data, MAX_STRIPE_SIZE)) == data + Zeros(pad)
    decreases |data|
  {
    hide Cut, Padding, Padded;
    if |data| <= MAX_STRIPE_SIZE {
      LastStripe(k, data);
      pad := Padding(k, data);
    } else {
      var first := data[..MAX_STRIPE_SIZE];
      FirstStripe(k, data);
      NoPadding(k, first);
      pad := PaddedAtEnd(k, data[MAX_STRIPE_SIZE..]);
      assert first + Zeros(0) == first && data == first + data[MAX_STRIPE_SIZE..];
    }
  }

  lemma SamePrefix(c: Bytes, d: Bytes, same: nat, i: nat)
    requires same <= |c| && same <= |d| && c[..same] == d[..same] && (i + 1) * 32768 <= same
    ensures BlockSlice(c, i) == BlockSlice(d, i)
  {
    var start, end := i * 32768, i * 32768 + 32768;
    assert c[start..end] == c[..same][start..end] && d[start..end] == d[..same][start..end];
  }

  lemma BlocksOfSize(data: Bytes, i: nat)
    requires data != [] && i <= (|data| - 1) / 32768
    ensures i < (|data| - 1) / 32768 ==> (i + 1) * 32768 <= |data|
    ensures |data| % 32768 == 0 ==> (i + 1) * 32768 <= |data|
  {
  }

  /** Up to the first padded block, and everywhere if there is none that matters, blocks are where they were. */
  lemma BlocksInPlace(k: nat, data: Bytes, i: nat)
    requires k > 0 && data != [] && i <= (|data| - 1) / 32768
    requires PaddingHarmless(k, data) || i < FirstPaddedBlock(k, data)
    ensures BlockSlice(Padded(k, Cut(data, MAX_STRIPE_SIZE)), i) == BlockSlice(data, i)
  {
    hide Cut, Padding, Padded, BlockSlice;
    var stripes := Cut(data, MAX_STRIPE_SIZE);
    var d := Padded(k, stripes);
    PaddedLength(k, stripes);
    FlattenCut(data, MAX_STRIPE_SIZE);
    BlocksOfSize(data, i);
    if Divides(k, stripes) {
    } else if |data| <= MAX_STRIPE_SIZE || 2097152 % k == 0 {
      var pad := PaddedAtEnd(k, data);
      assert d[..|data|] == data;
      SamePrefix(data, d, |data|, i);
    } else {
      FirstStripe(k, data);
      assert d[..MAX_STRIPE_SIZE] == data[..MAX_STRIPE_SIZE];
      SamePrefix(data, d, MAX_STRIPE_SIZE, i);
    }
  }

  // ---- what is decrypted

  lemma {:induction false} OpenFromSame(g: Cipher, c: Bytes, d: Bytes, nonce: Nonce, size: nat, i: nat)
    requires i <= NumBlocks(size)
    requires forall j :: i <= j < NumBlocks(size) ==> BlockSlice(c, j) == BlockSlice(d, j)
    ensures OpenFrom(g, c, nonce, VERSION, size, i) == OpenFrom(g, d, nonce, VERSION, size, i)
    decreases NumBlocks(size) - i
  {
    hide NumBlocks, BlockSlice, OpenBlock;
    if i == NumBlocks(size) {
    } else {
      OpenFromSame(g, c, d, nonce, size, i + 1);
    }
  }

  lemma {:induction false} OpenFromFails(g: Cipher, c: Bytes, d: Bytes, nonce: Nonce, size: nat, i: nat, b: nat)
    requires i <= b < NumBlocks(size)
    requires forall j :: i <= j < b ==> BlockSlice(c, j) == BlockSlice(d, j)
    requires OpenFrom(g, c, nonce, VERSION, size, i).Ok? && OpenAt(g, d, nonce, VERSION, size, b) == Err(NotAuthentic)
    ensures OpenFrom(g, d, nonce, VERSION, size, i) == Err(NotAuthentic)
    decreases NumBlocks(size) - i
  {
    hide NumBlocks, BlockSlice, OpenBlock;
    if i == b {
    } else {
      OpenFromFails(g, c, d, nonce, size, i + 1, b);
    }
  }

  /** What the download reassembles. */
  function Reassembly(g: Cipher, c: Coder, p: Bytes, nonce: Nonce): Bytes
    requires c.k > 0
  {
    Padded(c.k, Cut(Ciphertext(g, nonce, p), MAX_STRIPE_SIZE))
  }

  lemma SameHeader(k: nat, data: Bytes)
    requires k > 0 && |data| >= HEADER_SIZE
    ensures var d := Padded(k, Cut(data, MAX_STRIPE_SIZE));
            |d| >= HEADER_SIZE && d[..HEADER_SIZE] == data[..HEADER_SIZE]
  {
    hide Cut, Padding, Padded;
    if |data| <= MAX_STRIPE_SIZE {
      LastStripe(k, data);
    } else {
      FirstStripe(k, data);
    }
  }

  lemma HeaderDecides(suite: Suite, key: seq<byte>, c: Bytes, d: Bytes, info: string)
    requires |c| >= HEADER_SIZE && |d| >= HEADER_SIZE && c[..HEADER_SIZE] == d[..HEADER_SIZE]
    ensures ParseHeader(c) == ParseHeader(d)
  {
    assert c[0] == c[..HEADER_SIZE][0] && d[0] == d[..HEADER_SIZE][0];
    assert c[1..13] == c[..HEADER_SIZE][1..13] && d[1..13] == d[..HEADER_SIZE][1..13];
    assert c[13..17] == c[..HEADER_SIZE][13..17] && d[13..17] == d[..HEADER_SIZE][13..17];
  }

  /** The download decrypts the reassembly, by the header of the ciphertext. */
  lemma DownloadedIs(suite: Suite, key: seq<byte>, c: Coder, p: Bytes, info: string, nonce: Nonce)
    requires ValidSuite(suite) && suite(key, info).Some? && c.Valid() && 0 < |p| < 0x1_0000_0000
    ensures var g := suite(key, info).value;
            var openedAll := OpenFrom(g, Reassembly(g, c, p, nonce), nonce, VERSION, |p|, 0);
            Downloaded(suite, key, c, UploadedBlocks(g, c, p, nonce), info) == openedAll
  {
    hide CiphertextSize, SizeInBlocks, Reassembled, BlocksOf, Cut, Padded, NumBlocks, LastPadded, SealedFrom, OpenFrom;
    hide Header, ParseHeader;
    var g := suite(key, info).value;
    var data := Ciphertext(g, nonce, p);
    SizeRecovered(g, c, p, nonce);
    ReassemblesIff(c, data);
    ParseHeaderOfHeader(nonce, |p|, SealedFrom(g, nonce, p, 0));
    SameHeader(c.k, data);
    HeaderDecides(suite, key, data, Reassembly(g, c, p, nonce), info);
  }

  lemma LastBlockIs(g: Cipher, p: Bytes, nonce: Nonce)
    requires g.Valid() && |p| > 0
    ensures var data := Ciphertext(g, nonce, p);
            data != [] && (|data| - 1) / 32768 == NumBlocks(|p|) - 1 && |data| >= HEADER_SIZE
  {
    LastDataInRange(|p|);
    SealedFromPosition(g, nonce, p, 0);
    CiphertextSizeBounds(|p|);
    hide NumBlocks, CiphertextSize, LastPadded, Ciphertext;
    var n, size := NumBlocks(|p|), CiphertextSize(|p|);
    DivIs(size - 1, 32768, n - 1);
  }

  /** A chunk comes back whenever no padding gets into a block. */
  lemma HarmlessComesBack(suite: Suite, key: seq<byte>, c: Coder, p: Bytes, info: string, nonce: Nonce)
    requires ValidSuite(suite) && suite(key, info).Some? && c.Valid() && 0 < |p| < 0x1_0000_0000
    requires PaddingHarmless(c.k, Ciphertext(suite(key, info).value, nonce, p))
    ensures Downloaded(suite, key, c, UploadedBlocks(suite(key, info).value, c, p, nonce), info) == Ok(p)
  {
    hide Downloaded, UploadedBlocks, Ciphertext, OpenFrom, NumBlocks, PaddingHarmless, BlockSlice, Decrypted;
    var g := suite(key, info).value;
    DownloadedIs(suite, key, c, p, info, nonce);
    DecryptedOfCiphertext(suite, key, info, nonce, p);
    RoundTripIff(suite, key, info, nonce, p);
    LastBlockIs(g, p, nonce);
    forall i | 0 <= i < NumBlocks(|p|)
      ensures BlockSlice(Ciphertext(g, nonce, p), i) == BlockSlice(Reassembly(g, c, p, nonce), i)
    {
      BlocksInPlace(c.k, Ciphertext(g, nonce, p), i);
    }
    OpenFromSame(g, Ciphertext(g, nonce, p), Reassembly(g, c, p, nonce), nonce, |p|, 0);
  }

  lemma PaddedBlockInRange(k: nat, data: Bytes)
    requires k > 0 && data != []
    ensures FirstPaddedBlock(k, data) <= (|data| - 1) / 32768
  {
  }

  /** Exactly which chunks come back, for every number of data shards, when the cipher rejects the first block with
      padding in it, as an authenticated one does unless the padding happens to forge a tag: those of which no block
      gets padding. All others fail to authenticate. */
  lemma ChunkRoundTripIff(suite: Suite, key: seq<byte>, c: Coder, p: Bytes, info: string, nonce: Nonce)
    requires ValidSuite(suite) && suite(key, info).Some? && c.Valid() && 0 < |p| < 0x1_0000_0000
    requires var g := suite(key, info).value; var data := Ciphertext(g, nonce, p);
             !PaddingHarmless(c.k, data) ==>
               OpenAt(g, Reassembly(g, c, p, nonce), nonce, VERSION, |p|, FirstPaddedBlock(c.k, data)) == Err(NotAuthentic)
    ensures var result := Downloaded(suite, key, c, UploadedBlocks(suite(key, info).value, c, p, nonce), info);
            && (result == Ok(p) <==> PaddingHarmless(c.k, Ciphertext(suite(key, info).value, nonce, p)))
            && (result == Ok(p) || result == Err(NotAuthentic))
  {
    hide Downloaded, UploadedBlocks, Ciphertext, OpenFrom, OpenAt, NumBlocks, PaddingHarmless, BlockSlice, Decrypted;
    hide FirstPaddedBlock, Reassembly;
    var g := suite(key, info).value;
    var data := Ciphertext(g, nonce, p);
    if PaddingHarmless(c.k, data) {
      HarmlessComesBack(suite, key, c, p, info, nonce);
    } else {
      FailsWhenPadded(suite, key, c, p, info, nonce);
    }
  }

  lemma FailsWhenPadded(suite: Suite, key: seq<byte>, c: Coder, p: Bytes, info: string, nonce: Nonce)
    requires ValidSuite(suite) && suite(key, info).Some? && c.Valid() && 0 < |p| < 0x1_0000_0000
    requires var g := suite(key, info).value; var data := Ciphertext(g, nonce, p);
             OpenAt(g, Reassembly(g, c, p, nonce), nonce, VERSION, |p|, FirstPaddedBlock(c.k, data)) == Err(NotAuthentic)
    ensures Downloaded(suite, key, c, UploadedBlocks(suite(key, info).value, c, p, nonce), info) == Err(NotAuthentic)
  {
    hide Downloaded, UploadedBlocks, Ciphertext, OpenFrom, OpenAt, NumBlocks, PaddingHarmless, BlockSlice, Decrypted;
    hide FirstPaddedBlock;
    var g := suite(key, info).value;
    var data := Ciphertext(g, nonce, p);
    DownloadedIs(suite, key, c, p, info, nonce);
    DecryptedOfCiphertext(suite, key, info, nonce, p);
    RoundTripIff(suite, key, info, nonce, p);
    LastBlockIs(g, p, nonce);
    PaddedBlockInRange(c.k, data);
    forall i | 0 <= i < FirstPaddedBlock(c.k, data)
      ensures BlockSlice(data, i) == BlockSlice(Reassembly(g, c, p, nonce), i)
    {
      BlocksInPlace(c.k, data, i);
    }
    OpenFromFails(g, data, Reassembly(g, c, p, nonce), nonce, |p|, 0, FirstPaddedBlock(c.k, data));
  }

  /** Padding is harmless in the chunks of all sizes exactly when k divides 16. */
  lemma HarmlessAlwaysIff(k: nat)
    requires k > 0
    ensures (forall n: nat, data: Bytes :: n > 0 && |data| == CiphertextSize(n) ==> PaddingHarmless(k, data))
       <==> 16 % k == 0
  {
    hide NumBlocks, LastPadded, Divides, Cut, CiphertextSize;
    if 16 % k == 0 {
      DividesAlwaysIff(k);
    } else if forall n: nat, data: Bytes :: n > 0 && |data| == CiphertextSize(n) ==> PaddingHarmless(k, data) {
      SmallestSizes();
      SingleStripe(k, Zeros(48));
      SingleStripe(k, Zeros(64));
      assert PaddingHarmless(k, Zeros(48)) && PaddingHarmless(k, Zeros(64));
      DifferenceDivides(k);
    }
  }

  // ---- an example

  /** A cipher whose tag is sixteen ones. */
  function Marking(): Cipher {
    Cipher((n: seq<byte>, m: seq<byte>) => m + Ones(TAG_SIZE),
           (n: seq<byte>, c: seq<byte>) =>
             if |c| >= TAG_SIZE && c[|c| - TAG_SIZE..] == Ones(TAG_SIZE) then Some(c[..|c| - TAG_SIZE]) else None)
  }

  function Ones(n: nat): Bytes { seq(n, _ => 1) }

  lemma MarkingIsValid()
    ensures Marking().Valid()
  {
    var t := Marking();
    forall n: seq<byte>, m: seq<byte>
      ensures t.open(n, t.seal(n, m)) == Some(m)
    {
      var c := t.seal(n, m);
      assert c[|c| - TAG_SIZE..] == Ones(TAG_SIZE) && c[..|c| - TAG_SIZE] == m;
    }
  }

  lemma MarkingRejectsZeros(n: Bytes, c: Bytes, pad: nat)
    requires pad > 0
    ensures Marking().open(n, c + Zeros(pad)) == None
  {
    var d := c + Zeros(pad);
    if |d| >= TAG_SIZE {
      assert d[|d| - TAG_SIZE..][TAG_SIZE - 1] == 0 && Ones(TAG_SIZE)[TAG_SIZE - 1] == 1;
    }
  }

  /** With five data shards a chunk of one byte does not come back. */
  lemma OneByteIsLost(nonce: Nonce)
    ensures var suite: Suite := (key, info) => Some(Marking()); var c := SumParity(5);
            && ValidSuite(suite) && c.Valid()
            && Downloaded(suite, [], c, UploadedBlocks(Marking(), c, [7], nonce), "") == Err(NotAuthentic)
  {
    hide Downloaded, UploadedBlocks, SumParity, Ciphertext, Marking;
    var suite: Suite := (key, info) => Some(Marking());
    MarkingIsValid();
    SumParityIsValid(5);
    var g, c := Marking(), SumParity(5);
    FiveShards();
    OneBlockPadded(g, c, nonce);
    FailsWhenPadded(suite, [], c, [7], "", nonce);
  }

  lemma FiveShards()
    ensures SumParity(5).k == 5
  {
  }

  /** The 48 bytes of its ciphertext are padded by two zeros, which its only block then ends with. */
  lemma OneBlockPadded(g: Cipher, c: Coder, nonce: Nonce)
    requires g == Marking() && g.Valid() && c.k == 5
    ensures var data := Ciphertext(g, nonce, [7]);
            FirstPaddedBlock(5, data) == 0 &&
            OpenAt(g, Reassembly(g, c, [7], nonce), nonce, VERSION, 1, 0) == Err(NotAuthentic)
  {
    hide Marking, Ciphertext, Cut, Padded, CiphertextSize, NumBlocks;
    var data := Ciphertext(g, nonce, [7]);
    SmallestSizes();
    LastDataInRange(1);
    SealedFromPosition(g, nonce, [7], 0);
    LastStripe(5, data);
    assert Padding(5, data) == 2;
    StartsWithVersion(g, nonce);
    assert (data + Zeros(2))[0] == data[0];
    assert (data + Zeros(2))[HEADER_SIZE..] == data[HEADER_SIZE..] + Zeros(2);
    MarkingRejectsZeros(BlockNonce(nonce, 0), data[HEADER_SIZE..], 2);
    assert (data + Zeros(2))[0..50] == data + Zeros(2);
  }

  lemma StartsWithVersion(g: Cipher, nonce: Nonce)
    ensures |Ciphertext(g, nonce, [7])| >= HEADER_SIZE && Ciphertext(g, nonce, [7])[0] == VERSION
  {
  }
}
