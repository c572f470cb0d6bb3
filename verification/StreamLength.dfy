/** The header's length field is not covered by the authentication: what decrypting a genuine ciphertext yields
    when the header names another length. */
module StreamLength {
  import opened Base
  import opened Aead
  import opened StreamSizes
  import opened StreamFormat

  /** The ciphertext of p under a header that names `size` bytes. */
  function Relabelled(g: Cipher, nonce: Nonce, p: seq<byte>, size: nat): seq<byte> {
    Header(nonce, size) + SealedFrom(g, nonce, p, 0)
  }

  /** How many bytes the blocks of a plaintext of this size open to, the padding included. */
  function OpenedSize(plaintextSize: nat): nat
    requires plaintextSize > 0
  {
    CiphertextSizeBounds(plaintextSize);
    PlainStart(NumBlocks(plaintextSize) - 1) + LastPadded(plaintextSize)
  }

  function AllOpened(p: seq<byte>): (r: seq<byte>)
    requires |p| > 0
    ensures |r| == OpenedSize(|p|)
  {
    CiphertextSizeBounds(|p|);
    p + Zeros(OpenedSize(|p|) - |p|)
  }

  /** Only the header differs. */
  lemma RelabelledSlice(g: Cipher, nonce: Nonce, p: seq<byte>, size: nat, i: nat)
    requires g.Valid() && |p| > 0 && i < NumBlocks(|p|)
    ensures |Relabelled(g, nonce, p, size)| == CiphertextSize(|p|)
    ensures BlockSlice(Relabelled(g, nonce, p, size), i)
         == Ok((if i == 0 then Header(nonce, size) else []) + g.seal(BlockNonce(nonce, i), PaddedSlice(p, i)))
  {
    hide NumBlocks, CiphertextSize, LastPadded, PaddedSlice, PaddedLen, BlockNonce, Header, SealedFrom;
    SealedBlockSlice(g, nonce, p, i);
    SealedFromPosition(g, nonce, p, i);
    var c, d := Ciphertext(g, nonce, p), Relabelled(g, nonce, p, size);
    assert |c| == |d|;
    var start := i * 32768;
    var end := Min(start + MAX_BLOCK_SIZE, |c|);
    var h := if i == 0 then HEADER_SIZE else start;
    assert c[HEADER_SIZE..] == d[HEADER_SIZE..];
    SameBehindHeader(c, d, start, end);
  }

  lemma SameBehindHeader(c: seq<byte>, d: seq<byte>, start: nat, end: nat)
    requires HEADER_SIZE <= |c| == |d| && c[HEADER_SIZE..] == d[HEADER_SIZE..]
    requires start <= end <= |c|
    ensures start >= HEADER_SIZE ==> c[start..end] == d[start..end]
    ensures start == 0 && end >= HEADER_SIZE ==>
              d[..end] == d[..HEADER_SIZE] + c[..end][HEADER_SIZE..]
  {
    if start >= HEADER_SIZE {
      assert c[start..end] == c[HEADER_SIZE..][start - HEADER_SIZE..end - HEADER_SIZE];
      assert d[start..end] == d[HEADER_SIZE..][start - HEADER_SIZE..end - HEADER_SIZE];
    } else if start == 0 && end >= HEADER_SIZE {
      assert c[HEADER_SIZE..end] == c[HEADER_SIZE..][..end - HEADER_SIZE];
      assert d[HEADER_SIZE..end] == d[HEADER_SIZE..][..end - HEADER_SIZE];
    }
  }

  /** Block i of the relabelled ciphertext opens to its padded slice, of which the named length decides how much
      is kept. */
  lemma RelabelledOpens(g: Cipher, nonce: Nonce, p: seq<byte>, size: nat, i: nat)
    requires g.Valid() && |p| > 0 && i < NumBlocks(|p|)
    ensures OpenAt(g, Relabelled(g, nonce, p, size), nonce, VERSION, size, i)
         == if 0 <= BlockDataSize(size, i) <= PaddedLen(|p|, i)
            then Ok(PaddedSlice(p, i)[..BlockDataSize(size, i)]) else Panic
  {
    hide NumBlocks, PaddedLen, PaddedSlice, BlockNonce, BlockSlice, Relabelled, BlockDataSize;
    RelabelledSlice(g, nonce, p, size, i);
    var s := g.seal(BlockNonce(nonce, i), PaddedSlice(p, i));
    var blk := BlockSlice(Relabelled(g, nonce, p, size), i).value;
    assert (if i == 0 then blk[HEADER_SIZE..] else blk) == s;
  }

  /** The padded slices are the consecutive parts of all that opens. */
  lemma SliceOfOpened(p: seq<byte>, i: nat)
    requires |p| > 0 && i < NumBlocks(|p|)
    ensures PlainStart(i) + PaddedLen(|p|, i) == if i + 1 < NumBlocks(|p|) then PlainStart(i + 1) else OpenedSize(|p|)
    ensures PlainStart(i) + PaddedLen(|p|, i) <= |AllOpened(p)|
    ensures PaddedSlice(p, i) == AllOpened(p)[PlainStart(i)..PlainStart(i) + PaddedLen(|p|, i)]
  {
    BlockDataSizeIs(|p|, i);
    CiphertextSizeBounds(|p|);
    LastDataInRange(|p|);
    OpenedCovers(|p|, i);
    hide NumBlocks, LastPadded, CiphertextSize, PlainStart, BlockDataSize, OpenedSize;
    var lo, hi, end := BlockStart(|p|, i), BlockStart(|p|, i + 1), PlainStart(i) + PaddedLen(|p|, i);
    assert AllOpened(p)[lo..end] == p[lo..hi] + Zeros(end - hi);
  }

  lemma OpenedCovers(size: nat, i: nat)
    requires size > 0 && i < NumBlocks(size)
    ensures PlainStart(i) == BlockStart(size, i)
    ensures PlainStart(i) + PaddedLen(size, i) == if i + 1 < NumBlocks(size) then PlainStart(i + 1) else OpenedSize(size)
    ensures PlainStart(i) + PaddedLen(size, i) <= OpenedSize(size)
    ensures i + 1 < NumBlocks(size) ==> BlockStart(size, i + 1) == PlainStart(i + 1)
  {
    BlockDataSizeIs(size, i);
    CiphertextSizeBounds(size);
    LastDataInRange(size);
    hide NumBlocks, LastPadded, CiphertextSize;
  }

  /** A length within what opens names no more blocks than there are, and no more of each than it opens to. */
  lemma WithinOpened(plain: nat, size: nat, i: nat)
    requires plain > 0 && size <= OpenedSize(plain) && i < NumBlocks(size)
    ensures i < NumBlocks(plain) && 0 < BlockDataSize(size, i) <= PaddedLen(plain, i)
    ensures PlainStart(i) + BlockDataSize(size, i) == BlockStart(size, i + 1) <= size
    ensures PlainStart(i) == BlockStart(size, i)
  {
    BlockDataSizeIs(size, i);
    CiphertextSizeBounds(plain);
    MoreBlocks(plain, size, i);
    OpenedCovers(plain, i);
    hide NumBlocks, LastPadded, CiphertextSize, PaddedLen;
  }

  lemma MoreBlocks(plain: nat, size: nat, i: nat)
    requires plain > 0 && PlainStart(i) < size <= OpenedSize(plain)
    ensures i < NumBlocks(plain)
  {
    CiphertextSizeBounds(plain);
    hide NumBlocks, LastPadded, CiphertextSize;
    assert size <= PlainStart(NumBlocks(plain));
  }

  lemma {:induction false} OpensWithin(g: Cipher, nonce: Nonce, p: seq<byte>, size: nat, i: nat)
    requires g.Valid() && |p| > 0 && size <= OpenedSize(|p|) && i <= NumBlocks(size)
    ensures BlockStart(size, i) <= size
    ensures OpenFrom(g, Relabelled(g, nonce, p, size), nonce, VERSION, size, i)
         == Ok(AllOpened(p)[BlockStart(size, i)..size])
    decreases NumBlocks(size) - i
  {
    hide NumBlocks, OpenAt, PaddedLen, PaddedSlice, BlockDataSize, PlainStart, BlockStart, OpenedSize, Relabelled, AllOpened;
    if i == NumBlocks(size) {
      EndsAtSize(size);
    } else {
      WithinOpened(|p|, size, i);
      RelabelledOpens(g, nonce, p, size, i);
      SliceOfOpened(p, i);
      OpensWithin(g, nonce, p, size, i + 1);
      var all, lo, mid := AllOpened(p), BlockStart(size, i), BlockStart(size, i + 1);
      assert PaddedSlice(p, i)[..BlockDataSize(size, i)] == all[lo..mid];
      assert all[lo..size] == all[lo..mid] + all[mid..size];
    }
  }

  lemma EndsAtSize(size: nat)
    ensures BlockStart(size, NumBlocks(size)) == size
  {
    if size > 0 {
      LastDataInRange(size);
    }
  }

  /** A longer length reaches the last block, and asks for more than it opens to, or for one block more. */
  lemma BeyondOpened(plain: nat, size: nat, i: nat)
    requires plain > 0 && size > OpenedSize(plain) && i < NumBlocks(plain)
    ensures i < NumBlocks(size)
    ensures i + 1 < NumBlocks(plain) ==> 0 < BlockDataSize(size, i) <= PaddedLen(plain, i)
    ensures i + 1 == NumBlocks(plain) ==>
              && (BlockDataSize(size, i) <= PaddedLen(plain, i) <==> OpenedSize(plain) == PlainStart(NumBlocks(plain)))
              && BlockDataSize(size, i) > 0
    ensures i + 1 == NumBlocks(plain) && OpenedSize(plain) == PlainStart(NumBlocks(plain)) ==>
              i + 1 < NumBlocks(size)
  {
    OpenedCovers(plain, i);
    CiphertextSizeBounds(plain);
    BlocksReach(size, i);
    hide LastPadded, CiphertextSize, PaddedLen, OpenedSize;
    LastDataInRange(size);
    if i < NumBlocks(size) {
      BlockDataSizeIs(size, i);
    }
  }

  lemma BlocksReach(size: nat, i: nat)
    requires size > 0
    ensures i < NumBlocks(size) <==> PlainStart(i) < size
  {
    LastDataInRange(size);
  }

  /** The slot after a ciphertext whose last block is full: an empty slice, which does not open. */
  lemma NoBlockAfter(g: Cipher, nonce: Nonce, p: seq<byte>, size: nat)
    requires g.Valid() && |p| > 0 && OpenedSize(|p|) == PlainStart(NumBlocks(|p|))
    ensures OpenAt(g, Relabelled(g, nonce, p, size), nonce, VERSION, size, NumBlocks(|p|)) == Err(NotAuthentic)
  {
    CiphertextSizeBounds(|p|);
    LastDataInRange(|p|);
    RelabelledSlice(g, nonce, p, size, 0);
    hide NumBlocks, LastPadded, CiphertextSize, Relabelled, OpenedSize, BlockNonce;
    var d, n := Relabelled(g, nonce, p, size), NumBlocks(|p|);
    assert n * 32768 == |d|;
    assert d[|d|..] == [];
  }

  lemma {:induction false} FailsBeyond(g: Cipher, nonce: Nonce, p: seq<byte>, size: nat, i: nat)
    requires g.Valid() && |p| > 0 && size > OpenedSize(|p|) && i < NumBlocks(|p|) && i <= NumBlocks(size)
    ensures OpenFrom(g, Relabelled(g, nonce, p, size), nonce, VERSION, size, i)
         == if OpenedSize(|p|) == PlainStart(NumBlocks(|p|)) then Err(NotAuthentic) else Panic
    decreases NumBlocks(|p|) - i
  {
    hide NumBlocks, OpenAt, PaddedLen, PaddedSlice, BlockDataSize, PlainStart, OpenedSize, Relabelled;
    BeyondOpened(|p|, size, i);
    RelabelledOpens(g, nonce, p, size, i);
    if i + 1 < NumBlocks(|p|) {
      FailsBeyond(g, nonce, p, size, i + 1);
    } else if OpenedSize(|p|) == PlainStart(NumBlocks(|p|)) {
      NoBlockAfter(g, nonce, p, size);
    }
  }

  /** What decryption makes of a genuine ciphertext whose header names any length: as long as the blocks open to that
      many bytes, the beginning of the plaintext and its padding, without an error; beyond that it stops with
      an out-of-range slice, or, when the last block is full, fails to authenticate a block that is not there. */
  lemma NamedLengthDecides(suite: Suite, key: seq<byte>, info: string, nonce: Nonce, p: seq<byte>, size: nat)
    requires ValidSuite(suite) && suite(key, info).Some? && |p| > 0 && size < 0x1_0000_0000
    ensures var c := Relabelled(suite(key, info).value, nonce, p, size);
            Decrypted(suite, key, c, info, VERSION) ==
              if size <= OpenedSize(|p|) then Ok(AllOpened(p)[..size])
              else if OpenedSize(|p|) == PlainStart(NumBlocks(|p|)) then Err(NotAuthentic) else Panic
  {
    hide NumBlocks, OpenFrom, PlainStart, OpenedSize, AllOpened, SealedFrom, Header;
    var g := suite(key, info).value;
    ParseHeaderOfHeader(nonce, size, SealedFrom(g, nonce, p, 0));
    if size <= OpenedSize(|p|) {
      OpensWithin(g, nonce, p, size, 0);
      FromStart(size);
      assert AllOpened(p)[0..size] == AllOpened(p)[..size];
    } else {
      SomeBlock(|p|);
      FailsBeyond(g, nonce, p, size, 0);
    }
  }

  lemma FromStart(size: nat)
    ensures BlockStart(size, 0) == 0
  {
  }

  lemma SomeBlock(size: nat)
    requires size > 0
    ensures NumBlocks(size) > 0
  {
    LastDataInRange(size);
  }
}
