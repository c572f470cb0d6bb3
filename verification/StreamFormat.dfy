/** The stream encryption format, out of place: what a ciphertext is, what decrypting any byte string
    yields, and the round trip between the two. */
module StreamFormat {
  import opened Base
  import opened Aead
  import opened StreamSizes

  const VERSION: byte := 1

  /** The nonce of block i: the last four bytes of the initial nonce, plus i, wrapping at 32 bits. */
  function BlockNonce(nonce: Nonce, i: nat): Nonce {
    nonce[..8] + PutBE((GetBE(nonce[8..]) + i % 0x1_0000_0000) % 0x1_0000_0000, 4)
  }

  lemma AddWraps(v: nat, x: nat)
    requires v < 0x1_0000_0000 && x < 0x1_0000_0000
    ensures (v + x) % 0x1_0000_0000 == if v + x < 0x1_0000_0000 then v + x else v + x - 0x1_0000_0000
  {
  }

  /** Two blocks get the same nonce only if their indexes differ by a multiple of 2^32. */
  lemma NoncesDistinct(nonce: Nonce, i: nat, j: nat)
    ensures BlockNonce(nonce, i) == BlockNonce(nonce, j) <==> i % 0x1_0000_0000 == j % 0x1_0000_0000
  {
    Pow256Values();
    var v := GetBE(nonce[8..]);
    GetThenPut(nonce[8..]);
    var x, y := i % 0x1_0000_0000, j % 0x1_0000_0000;
    AddWraps(v, x);
    AddWraps(v, y);
    var a, b := (v + x) % 0x1_0000_0000, (v + y) % 0x1_0000_0000;
    PutThenGet(a, 4);
    PutThenGet(b, 4);
    assert BlockNonce(nonce, i)[8..] == PutBE(a, 4);
    assert BlockNonce(nonce, j)[8..] == PutBE(b, 4);
  }

  // ---- the ciphertext of a plaintext

  /** Bytes fed to the cipher for block i: a full block, or the last block's data and padding. */
  function PaddedLen(size: nat, i: nat): (r: nat)
    requires i < NumBlocks(size)
    ensures BlockStart(size, i) <= BlockStart(size, i + 1) <= size
    ensures BlockStart(size, i + 1) - BlockStart(size, i) <= r <= BLOCKN_DATA_SIZE
    ensures CipherStart(i) + r + TAG_SIZE
         == if i + 1 < NumBlocks(size) then CipherStart(i + 1) else CiphertextSize(size)
  {
    BlockDataSizeIs(size, i);
    CiphertextSizeBounds(size);
    if i == NumBlocks(size) - 1 then LastPadded(size)
    else if i == 0 then BLOCK0_DATA_SIZE else BLOCKN_DATA_SIZE
  }

  /** The plaintext of block i. */
  function BlockData(p: seq<byte>, i: nat): (d: seq<byte>)
    requires i < NumBlocks(|p|)
  {
    BlockDataSizeIs(|p|, i);
    p[BlockStart(|p|, i)..BlockStart(|p|, i + 1)]
  }

  function PaddedSlice(p: seq<byte>, i: nat): (s: seq<byte>)
    requires i < NumBlocks(|p|)
    ensures |s| == PaddedLen(|p|, i)
    ensures |BlockData(p, i)| <= |s| && s[..|BlockData(p, i)|] == BlockData(p, i)
  {
    var data := BlockData(p, i);
    data + Zeros(PaddedLen(|p|, i) - |data|)
  }

  /** The sealed blocks from i on, one after another. */
  function SealedFrom(g: Cipher, nonce: Nonce, p: seq<byte>, i: nat): seq<byte>
    requires i <= NumBlocks(|p|)
    decreases NumBlocks(|p|) - i
  {
    if i == NumBlocks(|p|) then [] else
      g.seal(BlockNonce(nonce, i), PaddedSlice(p, i)) + SealedFrom(g, nonce, p, i + 1)
  }

  /** Version, nonce, and the plaintext length truncated to 32 bits. */
  function Header(nonce: Nonce, size: nat): (h: seq<byte>)
    ensures |h| == HEADER_SIZE
  {
    [VERSION] + nonce + PutBE(size % 0x1_0000_0000, 4)
  }

  function Ciphertext(g: Cipher, nonce: Nonce, p: seq<byte>): seq<byte> {
    Header(nonce, |p|) + SealedFrom(g, nonce, p, 0)
  }

  lemma {:induction false} SealedFromLength(g: Cipher, nonce: Nonce, p: seq<byte>, i: nat)
    requires g.Valid() && |p| > 0 && i < NumBlocks(|p|)
    ensures |SealedFrom(g, nonce, p, i)| == CiphertextSize(|p|) - CipherStart(i)
    decreases NumBlocks(|p|) - i
  {
    hide NumBlocks, CiphertextSize, PaddedLen, PaddedSlice, BlockNonce, CipherStart, BlockStart;
    if i + 1 == NumBlocks(|p|) {
    } else {
      SealedFromLength(g, nonce, p, i + 1);
    }
  }

  lemma SealedTail(g: Cipher, nonce: Nonce, p: seq<byte>, i: nat)
    requires g.Valid() && |p| > 0 && i < NumBlocks(|p|)
    ensures var s := g.seal(BlockNonce(nonce, i), PaddedSlice(p, i));
            |s| <= |SealedFrom(g, nonce, p, i)| && SealedFrom(g, nonce, p, i)[|s|..] == SealedFrom(g, nonce, p, i + 1)
  {
  }

  lemma HeaderFirst(g: Cipher, nonce: Nonce, p: seq<byte>)
    ensures Ciphertext(g, nonce, p)[CipherStart(0)..] == SealedFrom(g, nonce, p, 0)
    ensures |Ciphertext(g, nonce, p)| == CipherStart(0) + |SealedFrom(g, nonce, p, 0)|
  {
  }

  /** The blocks from i on sit at CipherStart(i), and block i ends where block i + 1 starts or at the end. */
  lemma {:induction false} SealedFromPosition(g: Cipher, nonce: Nonce, p: seq<byte>, i: nat)
    requires g.Valid() && |p| > 0 && i < NumBlocks(|p|)
    ensures |Ciphertext(g, nonce, p)| == CiphertextSize(|p|)
    ensures CipherStart(i) <= CiphertextSize(|p|)
    ensures Ciphertext(g, nonce, p)[CipherStart(i)..] == SealedFrom(g, nonce, p, i)
    decreases i
  {
    hide NumBlocks, CiphertextSize, PaddedLen, PaddedSlice, BlockNonce, CipherStart, SealedFrom, Ciphertext;
    HeaderFirst(g, nonce, p);
    SealedFromLength(g, nonce, p, i);
    SealedFromLength(g, nonce, p, 0);
    if i == 0 {
    } else {
      SealedFromPosition(g, nonce, p, i - 1);
      SealedFromLength(g, nonce, p, i - 1);
      SealedTail(g, nonce, p, i - 1);
      var c, s := Ciphertext(g, nonce, p), g.seal(BlockNonce(nonce, i - 1), PaddedSlice(p, i - 1));
      assert |s| == CipherStart(i) - CipherStart(i - 1);
      assert c[CipherStart(i)..] == c[CipherStart(i - 1)..][|s|..];
    }
  }

  // ---- what decrypting yields, on any bytes

  datatype HeaderFields = HeaderFields(version: byte, nonce: Nonce, size: nat)

  function ParseHeader(data: seq<byte>): Outcome<HeaderFields> {
    if |data| < HEADER_SIZE then Err(HeaderTooShort)
    else Ok(HeaderFields(data[0], data[1..13], GetBE(data[13..17])))
  }

  lemma ParseHeaderOfHeader(nonce: Nonce, size: nat, rest: seq<byte>)
    ensures ParseHeader(Header(nonce, size) + rest) == Ok(HeaderFields(VERSION, nonce, size % 0x1_0000_0000))
  {
    var d := Header(nonce, size) + rest;
    assert d[1..13] == nonce;
    assert d[13..17] == PutBE(size % 0x1_0000_0000, 4);
    Pow256Values();
    PutThenGet(size % 0x1_0000_0000, 4);
  }

  /** Opening one block: for block 0 the header is checked and skipped, and of the opened bytes the
      first BlockDataSize are kept. The slice of that many bytes is out of range when fewer were opened. */
  function OpenBlock(g: Cipher, blk: seq<byte>, nonce: Nonce, version: byte, i: nat, size: nat): (r: Outcome<seq<byte>>)
    ensures r.Ok? ==> |r.value| == BlockDataSize(size, i)
    ensures r.Ok? && g.Valid() ==> |r.value| <= |blk|
  {
    if i == 0 && |blk| < HEADER_SIZE then Err(HeaderTooShort)
    else if i == 0 && blk[0] != version then Err(VersionMismatch)
    else
      match g.open(BlockNonce(nonce, i), if i == 0 then blk[HEADER_SIZE..] else blk)
      case None => Err(NotAuthentic)
      case Some(plain) =>
        if 0 <= BlockDataSize(size, i) <= |plain| then Ok(plain[..BlockDataSize(size, i)]) else Panic
  }

  /** The bytes `buf[start:end]` of block i, when they are a legal slice. */
  function BlockSlice(c: seq<byte>, i: nat): Outcome<seq<byte>> {
    var start := i * 32768;
    var end := Min(start + MAX_BLOCK_SIZE, |c|);
    if start <= end then Ok(c[start..end]) else Panic
  }

  /** Slicing and opening block i. */
  function OpenAt(g: Cipher, c: seq<byte>, nonce: Nonce, version: byte, size: nat, i: nat): Outcome<seq<byte>> {
    match BlockSlice(c, i)
    case Panic => Panic
    case Err(e) => Err(e)
    case Ok(blk) => OpenBlock(g, blk, nonce, version, i, size)
  }

  /** The plaintext of the blocks from i on. */
  function OpenFrom(g: Cipher, c: seq<byte>, nonce: Nonce, version: byte, size: nat, i: nat): Outcome<seq<byte>>
    requires i <= NumBlocks(size)
    decreases NumBlocks(size) - i
  {
    if i == NumBlocks(size) then Ok([]) else
      match OpenAt(g, c, nonce, version, size, i)
      case Panic => Panic
      case Err(e) => Err(e)
      case Ok(x) => Prepend(x, OpenFrom(g, c, nonce, version, size, i + 1))
  }

  /** The first block from i on that does not open, or the number of blocks. */
  function FirstFailure(g: Cipher, c: seq<byte>, nonce: Nonce, version: byte, size: nat, i: nat): nat
    requires i <= NumBlocks(size)
    decreases NumBlocks(size) - i
  {
    if i == NumBlocks(size) || !OpenAt(g, c, nonce, version, size, i).Ok? then i
    else FirstFailure(g, c, nonce, version, size, i + 1)
  }

  /** The plaintext of the blocks from i on, up to the first that does not open. */
  function OpenedUntilFailure(g: Cipher, c: seq<byte>, nonce: Nonce, version: byte, size: nat, i: nat): seq<byte>
    requires i <= NumBlocks(size)
    decreases NumBlocks(size) - i
  {
    if i == NumBlocks(size) || !OpenAt(g, c, nonce, version, size, i).Ok? then []
    else OpenAt(g, c, nonce, version, size, i).value + OpenedUntilFailure(g, c, nonce, version, size, i + 1)
  }

  /** Once the header has been checked, a block can only fail to authenticate, or be malformed. */
  lemma {:induction false} OnlyAuthenticationFails(g: Cipher, c: seq<byte>, nonce: Nonce, version: byte, size: nat, i: nat)
    requires i <= NumBlocks(size) && |c| >= HEADER_SIZE && c[0] == version
    ensures OpenFrom(g, c, nonce, version, size, i).Err? ==>
              OpenFrom(g, c, nonce, version, size, i) == Err(NotAuthentic)
    decreases NumBlocks(size) - i
  {
    hide NumBlocks, BlockDataSize, BlockNonce;
    if i == NumBlocks(size) {
    } else {
      OnlyAuthenticationFails(g, c, nonce, version, size, i + 1);
    }
  }

  function Decrypted(suite: Suite, key: seq<byte>, c: seq<byte>, info: string, version: byte): Outcome<seq<byte>> {
    match ParseHeader(c)
    case Panic => Panic
    case Err(e) => Err(e)
    case Ok(h) =>
      if h.version != version then Err(VersionMismatch) else
        match suite(key, info)
        case None => Err(NoCipher)
        case Some(g) => OpenFrom(g, c, h.nonce, version, h.size, 0)
  }

  // ---- round trip

  lemma SealedBlockSlice(g: Cipher, nonce: Nonce, p: seq<byte>, i: nat)
    requires g.Valid() && |p| > 0 && i < NumBlocks(|p|)
    ensures var c := Ciphertext(g, nonce, p);
            BlockSlice(c, i) == Ok((if i == 0 then Header(nonce, |p|) else [])
                                   + g.seal(BlockNonce(nonce, i), PaddedSlice(p, i)))
  {
    hide NumBlocks, CiphertextSize, LastPadded, PaddedSlice, PaddedLen, BlockNonce, BlockStart, Header, SealedFrom, Min;
    var c := Ciphertext(g, nonce, p);
    var s := g.seal(BlockNonce(nonce, i), PaddedSlice(p, i));
    SealedFromPosition(g, nonce, p, i);
    SealedStarts(g, nonce, p, i);
    BlockEnds(|p|, i);
    var at := CipherStart(i);
    assert c[at..at + |s|] == SealedFrom(g, nonce, p, i)[..|s|] == s;
    assert c[i * 32768..at + |s|] == c[i * 32768..at] + c[at..at + |s|];
    assert i == 0 ==> c[0..HEADER_SIZE] == Header(nonce, |p|);
  }

  lemma SealedStarts(g: Cipher, nonce: Nonce, p: seq<byte>, i: nat)
    requires g.Valid() && |p| > 0 && i < NumBlocks(|p|)
    ensures g.seal(BlockNonce(nonce, i), PaddedSlice(p, i)) <= SealedFrom(g, nonce, p, i)
  {
    hide NumBlocks, PaddedLen, PaddedSlice, BlockNonce;
  }

  /** Block i of a ciphertext ends where the slice of that block ends. */
  lemma BlockEnds(size: nat, i: nat)
    requires size > 0 && i < NumBlocks(size)
    ensures CipherStart(i) + PaddedLen(size, i) + TAG_SIZE
         == Min(i * 32768 + MAX_BLOCK_SIZE, CiphertextSize(size)) > i * 32768
    ensures i > 0 ==> CipherStart(i) == i * 32768
  {
    CiphertextSizeBounds(size);
    hide NumBlocks, CiphertextSize, LastPadded;
  }

  lemma OpenSealedBlock(g: Cipher, nonce: Nonce, p: seq<byte>, i: nat)
    requires g.Valid() && |p| > 0 && i < NumBlocks(|p|)
    ensures OpenAt(g, Ciphertext(g, nonce, p), nonce, VERSION, |p|, i) == Ok(BlockData(p, i))
  {
    SealedBlockSlice(g, nonce, p, i);
    BlockDataSizeIs(|p|, i);
    hide NumBlocks, PaddedLen, PaddedSlice, BlockNonce, BlockSlice, Ciphertext, BlockDataSize;
    var s := g.seal(BlockNonce(nonce, i), PaddedSlice(p, i));
    var blk := BlockSlice(Ciphertext(g, nonce, p), i).value;
    assert (if i == 0 then blk[HEADER_SIZE..] else blk) == s;
    assert |BlockData(p, i)| == BlockDataSize(|p|, i);
  }

  lemma {:induction false} OpenFromSealed(g: Cipher, nonce: Nonce, p: seq<byte>, i: nat)
    requires g.Valid() && |p| > 0 && i <= NumBlocks(|p|)
    ensures 0 <= BlockStart(|p|, i) <= |p|
    ensures OpenFrom(g, Ciphertext(g, nonce, p), nonce, VERSION, |p|, i) == Ok(p[BlockStart(|p|, i)..])
    decreases NumBlocks(|p|) - i
  {
    LastDataInRange(|p|);
    hide NumBlocks, Ciphertext, OpenAt, PlainStart, BlockStart, BlockData, BlockDataSize;
    if i < NumBlocks(|p|) {
      OpenSealedBlock(g, nonce, p, i);
      OpenFromSealed(g, nonce, p, i + 1);
      BlockDataThenRest(p, i);
    } else {
      assert p[BlockStart(|p|, i)..] == [];
    }
  }

  lemma BlockDataThenRest(p: seq<byte>, i: nat)
    requires i < NumBlocks(|p|)
    ensures 0 <= BlockStart(|p|, i) <= BlockStart(|p|, i + 1) <= |p|
    ensures p[BlockStart(|p|, i)..] == BlockData(p, i) + p[BlockStart(|p|, i + 1)..]
  {
  }

  /** What decryption reports as length always fits the header's 32 bits. */
  lemma {:induction false} OpenFromLength(g: Cipher, c: seq<byte>, nonce: Nonce, version: byte, size: nat, i: nat)
    requires size > 0 && i <= NumBlocks(size)
    requires OpenFrom(g, c, nonce, version, size, i).Ok?
    ensures |OpenFrom(g, c, nonce, version, size, i).value| == size - BlockStart(size, i)
    decreases NumBlocks(size) - i
  {
    LastDataInRange(size);
    hide NumBlocks, BlockDataSize, BlockSlice, PlainStart;
    if i == NumBlocks(size) {
    } else {
      BlockDataSizeIs(size, i);
      OpenFromLength(g, c, nonce, version, size, i + 1);
    }
  }

  /** On a ciphertext the header yields the nonce and the truncated length, and the blocks are opened. */
  lemma DecryptedOfCiphertext(suite: Suite, key: seq<byte>, info: string, nonce: Nonce, p: seq<byte>)
    requires suite(key, info).Some?
    ensures var g := suite(key, info).value; var c := Ciphertext(g, nonce, p);
            Decrypted(suite, key, c, info, VERSION) == OpenFrom(g, c, nonce, VERSION, |p| % 0x1_0000_0000, 0)
  {
    ParseHeaderOfHeader(nonce, |p|, SealedFrom(suite(key, info).value, nonce, p, 0));
  }

  /** Decrypting what was encrypted, under the same key and info, gives the plaintext back exactly when the
      plaintext is shorter than 2^32 bytes: the length field of the header has 32 bits. */
  lemma RoundTripIff(suite: Suite, key: seq<byte>, info: string, nonce: Nonce, p: seq<byte>)
    requires ValidSuite(suite) && suite(key, info).Some? && |p| > 0
    ensures Decrypted(suite, key, Ciphertext(suite(key, info).value, nonce, p), info, VERSION) == Ok(p)
       <==> |p| < 0x1_0000_0000
  {
    hide Ciphertext, Decrypted, OpenFrom;
    var g := suite(key, info).value;
    DecryptedOfCiphertext(suite, key, info, nonce, p);
    if |p| < 0x1_0000_0000 {
      OpenFromSealed(g, nonce, p, 0);
    } else {
      OpenFromShort(g, Ciphertext(g, nonce, p), nonce, VERSION, |p| % 0x1_0000_0000);
    }
  }

  lemma OpenFromShort(g: Cipher, c: seq<byte>, nonce: Nonce, version: byte, size: nat)
    ensures OpenFrom(g, c, nonce, version, size, 0).Ok? ==> |OpenFrom(g, c, nonce, version, size, 0).value| == size
  {
    if size > 0 && OpenFrom(g, c, nonce, version, size, 0).Ok? {
      OpenFromLength(g, c, nonce, version, size, 0);
    }
  }
}
