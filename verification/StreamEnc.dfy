/** Encrypt, DecryptBlock and DecryptAllBlocks as they run: inside the caller's buffer, the blocks written
    right to left when encrypting and compacted left to right when decrypting. A Go slice with spare
    capacity is an array (the capacity) and a length. */
module StreamEnc {
  import opened Base
  import opened Aead
  import opened StreamSizes
  import opened StreamFormat

  // ---- encrypting

  /** What the buffer holds once the blocks from i on have been sealed: the plaintext of the earlier blocks,
      untouched, and the sealed blocks in place; the bytes in between are spent. */
  ghost predicate SealedDownTo(a: seq<byte>, before: seq<byte>, len: nat, g: Cipher, nonce: Nonce, i: nat)
    requires 0 < len && i <= NumBlocks(len) && len <= CiphertextSize(len) <= |before|
  {
    var total := CiphertextSize(len);
    && |a| == |before|
    && a[total..] == before[total..]
    && a[..BlockStart(len, i)] == before[..BlockStart(len, i)]
    && (i < NumBlocks(len) ==>
          CipherStart(i) <= total && a[CipherStart(i)..total] == SealedFrom(g, nonce, before[..len], i))
  }

  /** Sealing block i at its place keeps everything that is still needed: it starts at or after the place
      its plaintext starts, and ends where block i + 1 starts or at the end of the ciphertext. */
  lemma SealStep(a: seq<byte>, before: seq<byte>, len: nat, g: Cipher, nonce: Nonce, i: nat)
    requires g.Valid() && 0 < len && i < NumBlocks(len) && len <= CiphertextSize(len) <= |before|
    requires SealedDownTo(a, before, len, g, nonce, i + 1)
    ensures BlockStart(len, i) <= BlockStart(len, i + 1) <= |a|
    ensures a[BlockStart(len, i)..BlockStart(len, i + 1)] == BlockData(before[..len], i)
    ensures var s := g.seal(BlockNonce(nonce, i), PaddedSlice(before[..len], i));
            && CipherStart(i) + |s| <= |a|
            && SealedDownTo(Splice(a, CipherStart(i), s), before, len, g, nonce, i)
  {
    hide NumBlocks, CiphertextSize, BlockStart, CipherStart, PaddedLen, PaddedSlice, BlockNonce, Splice;
    var s := g.seal(BlockNonce(nonce, i), PaddedSlice(before[..len], i));
    var at, lo, hi := CipherStart(i), BlockStart(len, i), BlockStart(len, i + 1);
    SealPlaces(len, i);
    SealParts(a, before, len, at, s, lo, hi, CiphertextSize(len));
    assert a[at + |s|..CiphertextSize(len)] == SealedFrom(g, nonce, before[..len], i + 1);
  }

  /** Where block i is read and written. */
  lemma SealPlaces(len: nat, i: nat)
    requires 0 < len && i < NumBlocks(len)
    ensures BlockStart(len, i) <= BlockStart(len, i + 1) <= len
    ensures BlockStart(len, i) <= CipherStart(i) && CipherStart(i) + PaddedLen(len, i) + TAG_SIZE <= CiphertextSize(len)
    ensures CipherStart(i) + PaddedLen(len, i) + TAG_SIZE
         == if i + 1 < NumBlocks(len) then CipherStart(i + 1) else CiphertextSize(len)
    ensures i + 1 < NumBlocks(len) ==> CipherStart(i + 1) <= CiphertextSize(len)
  {
    BlockDataSizeIs(len, i);
    CiphertextSizeBounds(len);
    CiphertextReaches(len, i);
  }

  lemma CiphertextReaches(len: nat, i: nat)
    requires 0 < len && i < NumBlocks(len)
    ensures i + 1 < NumBlocks(len) ==> CipherStart(i + 1) <= CiphertextSize(len)
  {
    CiphertextSizeBounds(len);
    hide NumBlocks, CiphertextSize, LastPadded;
  }

  lemma SealParts(a: seq<byte>, before: seq<byte>, len: nat, at: nat, s: seq<byte>, lo: nat, hi: nat, total: nat)
    requires |a| == |before| && lo <= at && at + |s| <= total <= |a| && lo <= hi <= len <= |a|
    requires a[..hi] == before[..hi]
    ensures var b := Splice(a, at, s);
            && b[..lo] == before[..lo] && b[total..] == a[total..]
            && b[at..total] == s + a[at + |s|..total]
    ensures a[lo..hi] == before[..len][lo..hi]
  {
    SpliceParts(a, at, s, lo, total);
    assert a[..lo] == a[..hi][..lo] && before[..lo] == before[..hi][..lo];
    assert a[lo..hi] == a[..hi][lo..] && before[..len][lo..hi] == before[..hi][lo..];
  }

  /** Writing the header completes the ciphertext. */
  lemma HeaderStep(a: seq<byte>, before: seq<byte>, len: nat, g: Cipher, nonce: Nonce)
    requires g.Valid() && 0 < len && len <= CiphertextSize(len) <= |before|
    requires SealedDownTo(a, before, len, g, nonce, 0)
    ensures HEADER_SIZE <= CiphertextSize(len) == |Ciphertext(g, nonce, before[..len])|
    ensures Splice(a, 0, Header(nonce, len)) == Ciphertext(g, nonce, before[..len]) + before[CiphertextSize(len)..]
  {
    hide NumBlocks, CiphertextSize, SealedFrom, Header, BlockStart, Splice;
    SomeBlocks(len);
    SealedFromPosition(g, nonce, before[..len], 0);
    SpliceFront(a, Header(nonce, len), CiphertextSize(len));
  }

  lemma SomeBlocks(len: nat)
    requires len > 0
    ensures NumBlocks(len) > 0
  {
    LastDataInRange(len);
  }

  lemma SpliceFront(a: seq<byte>, h: seq<byte>, total: nat)
    requires |h| <= total <= |a|
    ensures Splice(a, 0, h) == h + a[|h|..total] + a[total..]
  {
  }

  /** Copies `data` to the start of `tmp` and zero-pads it to `paddedLen`. */
  method CopyPadded(tmp: array<byte>, data: seq<byte>, paddedLen: nat)
    requires |data| <= paddedLen <= tmp.Length
    modifies tmp
    ensures tmp[..paddedLen] == data + Zeros(paddedLen - |data|)
  {
    Write(tmp, 0, data);
    if |data| < paddedLen {
      Write(tmp, |data|, Zeros(paddedLen - |data|));
    }
  }

  /** What a turn of the loop computes is where block i is. */
  lemma TurnPlaces(len: nat, i: nat)
    requires i < NumBlocks(len)
    ensures PlainStart(i) == (if i == 0 then 0 else BLOCK0_DATA_SIZE + (i - 1) * 32752) == BlockStart(len, i)
    ensures Min(PlainStart(i) + (PlainStart(i + 1) - PlainStart(i)), len) == BlockStart(len, i + 1)
    ensures CipherStart(i) == if i == 0 then HEADER_SIZE else i * 32768
  {
    BlockDataSizeIs(len, i);
  }

  lemma SlicePadded(p: seq<byte>, i: nat)
    requires i < NumBlocks(|p|)
    ensures |BlockData(p, i)| <= PaddedLen(|p|, i) <= BLOCKN_DATA_SIZE
    ensures PaddedSlice(p, i) == BlockData(p, i) + Zeros(PaddedLen(|p|, i) - |BlockData(p, i)|)
  {
    hide NumBlocks, PaddedLen, BlockData;
    assert |PaddedSlice(p, i)| == PaddedLen(|p|, i);
  }

  /** One turn of Encrypt's loop: stages block i in `tmp`, pads it, and seals it at its place in `buf`. */
  method EncryptBlock(gcm: Cipher, buf: array<byte>, tmp: array<byte>, len: nat, initialNonce: Nonce, i: nat,
                      capacity: nat, paddedLen: nat, ghost before: seq<byte>)
    requires gcm.Valid() && 0 < len && i < NumBlocks(len) && len <= CiphertextSize(len) <= |before|
    requires capacity == PlainStart(i + 1) - PlainStart(i) && paddedLen == PaddedLen(len, i)
    requires buf != tmp && tmp.Length == BLOCKN_DATA_SIZE
    requires SealedDownTo(buf[..], before, len, gcm, initialNonce, i + 1)
    modifies buf, tmp
    ensures SealedDownTo(buf[..], before, len, gcm, initialNonce, i)
  {
    hide SealedDownTo, NumBlocks, CiphertextSize, BlockStart, CipherStart, PlainStart, PaddedLen, PaddedSlice;
    hide BlockNonce, BlockData, BlockDataSize, Splice, Min;
    TurnPlaces(len, i);
    SlicePadded(before[..len], i);
    var plaintextStart := if i == 0 then 0 else BLOCK0_DATA_SIZE + (i - 1) * 32752;
    var plaintextEnd := Min(plaintextStart + capacity, len);
    var offset := if i == 0 then HEADER_SIZE else i * 32768;
    SealStep(buf[..], before, len, gcm, initialNonce, i);
    var data := buf[plaintextStart..plaintextEnd];
    CopyPadded(tmp, data, paddedLen);
    Write(buf, offset, gcm.seal(BlockNonce(initialNonce, i), tmp[..paddedLen]));
  }

  lemma SealStart(before: seq<byte>, len: nat, g: Cipher, nonce: Nonce)
    requires 0 < len && len <= CiphertextSize(len) <= |before|
    ensures SealedDownTo(before, before, len, g, nonce, NumBlocks(len))
  {
  }

  /** What the loop computes before its turns, and in turn i. */
  lemma TurnSizes(len: nat, i: nat)
    requires 0 < len && i < NumBlocks(len)
    ensures BlockDataSize(len, NumBlocks(len) - 1) > 0
    ensures (if i == 0 then BLOCK0_DATA_SIZE else BLOCKN_DATA_SIZE) == PlainStart(i + 1) - PlainStart(i)
    ensures PaddedLen(len, i) ==
            if i < NumBlocks(len) - 1 then PlainStart(i + 1) - PlainStart(i)
            else BlockDataSize(len, NumBlocks(len) - 1)
                 + LastBlockPadding(NumBlocks(len), BlockDataSize(len, NumBlocks(len) - 1))
  {
    LastDataInRange(len);
    hide NumBlocks, LastBlockPadding, BlockDataSize;
  }

  /** Encrypt, once its arguments have been checked. */
  method EncryptBlocks(gcm: Cipher, buf: array<byte>, len: nat, initialNonce: Nonce)
    requires gcm.Valid() && 0 < len && len <= CiphertextSize(len) <= buf.Length
    modifies buf
    ensures buf[..] == Ciphertext(gcm, initialNonce, old(buf[..len])) + old(buf[CiphertextSize(len)..])
    ensures |Ciphertext(gcm, initialNonce, old(buf[..len]))| == CiphertextSize(len)
  {
    hide SealedDownTo, SealedFrom, CiphertextSize, NumBlocks, BlockDataSize, LastBlockPadding, PaddedLen, PlainStart;
    hide Splice, Ciphertext, Header;
    SomeBlocks(len);
    var numBlocks := NumBlocks(len);
    var lastBlockIndex := numBlocks - 1;
    TurnSizes(len, lastBlockIndex);
    var lastData := BlockDataSize(len, lastBlockIndex);
    var padding := LastBlockPadding(numBlocks, lastData);
    ghost var before := buf[..];
    SealStart(before, len, gcm, initialNonce);

    var tmp := new byte[BLOCKN_DATA_SIZE];
    var i := numBlocks;
    while i > 0
      invariant 0 <= i <= numBlocks
      invariant SealedDownTo(buf[..], before, len, gcm, initialNonce, i)
    {
      i := i - 1;
      TurnSizes(len, i);
      var capacity := if i == 0 then BLOCK0_DATA_SIZE else BLOCKN_DATA_SIZE;
      var paddedLen := if i == lastBlockIndex then lastData + padding else capacity;
      EncryptBlock(gcm, buf, tmp, len, initialNonce, i, capacity, paddedLen, before);
    }

    HeaderStep(buf[..], before, len, gcm, initialNonce);
    Write(buf, 0, Header(initialNonce, len));
    assert old(buf[..len]) == before[..len] && old(buf[CiphertextSize(len)..]) == before[CiphertextSize(len)..];
  }

  method Encrypt(suite: Suite, key: seq<byte>, buf: array<byte>, len: nat, info: string, random: Option<Nonce>)
    returns (r: Outcome<nat>)
    requires ValidSuite(suite)
    requires len <= buf.Length
    modifies buf
    ensures r.Ok? <==> len > 0 && CiphertextSize(len) <= buf.Length && suite(key, info).Some? && random.Some?
    ensures len == 0 ==> r == Err(EmptyPlaintext)
    ensures len > 0 && buf.Length < CiphertextSize(len) ==> r == Err(BufferTooSmall)
    ensures len > 0 && CiphertextSize(len) <= buf.Length && !r.Ok? ==>
              r == Err(if suite(key, info).None? then NoCipher else NoRandomness)
    ensures !r.Ok? ==> r.Err? && buf[..] == old(buf[..])
    ensures r.Ok? ==>
      && r.value == len + Overhead(len)
      && len <= r.value <= buf.Length
      && buf[..r.value] == Ciphertext(suite(key, info).value, random.value, old(buf[..len]))
      && buf[r.value..] == old(buf[r.value..])
  {
    if len == 0 {
      return Err(EmptyPlaintext);
    }
    CiphertextSizeBounds(len);
    var totalSize := CiphertextSize(len);
    hide CiphertextSize, NumBlocks, Ciphertext;
    if buf.Length < totalSize {
      return Err(BufferTooSmall);
    }
    var cipher := suite(key, info);
    if cipher.None? {
      return Err(NoCipher);
    }
    if random.None? {
      return Err(NoRandomness);
    }
    EncryptBlocks(cipher.value, buf, len, random.value);
    ghost var c := Ciphertext(cipher.value, random.value, old(buf[..len]));
    assert buf[..totalSize] == buf[..][..totalSize] == c;
    assert buf[totalSize..] == buf[..][totalSize..] == old(buf[totalSize..]);
    r := Ok(totalSize);
  }

  // ---- decrypting

  /** Decrypts the block in buf[lo..hi]; its plaintext ends up at the start of that range. A wrong header changes
      nothing. When authentication fails, opening may have overwritten everything behind the header; here it
      clears the place of the plaintext. */
  method DecryptBlock(gcm: Cipher, buf: array<byte>, lo: nat, hi: nat, initialNonce: Nonce, version: byte,
                      blockIndex: nat, plaintextSize: nat)
    returns (r: Outcome<nat>)
    requires gcm.Valid()
    requires lo <= hi <= buf.Length
    modifies buf
    ensures buf[..][..lo] == old(buf[..])[..lo] && buf[..][hi..] == old(buf[..])[hi..]
    ensures var spec := OpenBlock(gcm, old(buf[..])[lo..hi], initialNonce, version, blockIndex, plaintextSize);
      match spec
      case Panic => r == Panic
      case Err(e) =>
        && r == Err(e)
        && (e != NotAuthentic ==> buf[..] == old(buf[..]))
        && (blockIndex == 0 && e == NotAuthentic ==>
              lo + HEADER_SIZE <= hi && buf[..][..lo + HEADER_SIZE] == old(buf[..])[..lo + HEADER_SIZE])
      case Ok(x) => r == Ok(|x|) && lo + |x| <= hi && buf[..][lo..lo + |x|] == x
  {
    hide BlockNonce, BlockDataSize, Splice;
    var ciphertext := lo;
    if blockIndex == 0 {
      if hi - lo < HEADER_SIZE {
        return Err(HeaderTooShort);
      }
      if buf[lo] != version {
        return Err(VersionMismatch);
      }
      ciphertext := lo + HEADER_SIZE;
    }
    ghost var before := buf[..];
    assert before[lo..hi][ciphertext - lo..] == before[ciphertext..hi];
    var nonce := BlockNonce(initialNonce, blockIndex);
    var actual := BlockDataSize(plaintextSize, blockIndex);
    match gcm.open(nonce, buf[ciphertext..hi])
    case None =>
      ClearPlace(buf, lo, ciphertext, hi);
      r := Err(NotAuthentic);
    case Some(plain) =>
      if !(0 <= actual <= |plain|) {
        Write(buf, ciphertext, plain);
        SpliceParts(before, ciphertext, plain, lo, hi);
        return Panic;
      }
      KeepOpened(buf, lo, hi, ciphertext, plain, actual);
      r := Ok(actual);
  }

  /** What a failed opening does to the place of the plaintext. */
  method ClearPlace(buf: array<byte>, lo: nat, at: nat, hi: nat)
    requires lo <= at <= hi <= buf.Length
    modifies buf
    ensures buf[..][..at] == old(buf[..])[..at] && buf[..][hi..] == old(buf[..])[hi..]
    ensures buf[..][..lo] == old(buf[..])[..lo]
  {
    hide Splice;
    ghost var before := buf[..];
    var cleared := Zeros(if hi - at >= TAG_SIZE then hi - at - TAG_SIZE else 0);
    Write(buf, at, cleared);
    SpliceParts(before, at, cleared, at, hi);
    assert buf[..][..lo] == buf[..][..at][..lo] && before[..lo] == before[..at][..lo];
  }

  /** The opened bytes land at `at`; those past `actual` are cleared, the others moved to the start of the range. */
  method KeepOpened(buf: array<byte>, lo: nat, hi: nat, at: nat, plain: seq<byte>, actual: nat)
    requires lo <= at && at + |plain| <= hi <= buf.Length && actual <= |plain|
    modifies buf
    ensures buf[..][..lo] == old(buf[..])[..lo] && buf[..][hi..] == old(buf[..])[hi..]
    ensures buf[..][lo..lo + actual] == plain[..actual]
  {
    hide Splice;
    ghost var before := buf[..];
    var cleared := plain[..actual] + Zeros(|plain| - actual);
    SpliceParts(before, at, cleared, lo, hi);
    Write(buf, at, cleared);
    ghost var middle := buf[..];
    assert middle[at..at + actual] == middle[at..at + |cleared|][..actual] == plain[..actual];
    SpliceParts(middle, lo, plain[..actual], lo, hi);
    Move(buf, lo, at, actual);
  }

  /** After the first i blocks: the buffer starts with their plaintext, and the later blocks are still sealed. */
  ghost predicate CompactedUpTo(a: seq<byte>, c: seq<byte>, done: seq<byte>, size: nat, i: nat) {
    && |a| == |c|
    && |done| == BlockStart(size, i)
    && |done| <= |a|
    && a[..|done|] == done
    && (i * 32768 <= |c| ==> a[i * 32768..] == c[i * 32768..])
  }

  /** After block k did not open: the plaintext of the blocks before it, and the blocks after it untouched. */
  ghost predicate AbandonedAt(a: seq<byte>, c: seq<byte>, done: seq<byte>, k: nat) {
    && |a| == |c| && |done| <= |a| && a[..|done|] == done
    && a[Min((k + 1) * 32768, |c|)..] == c[Min((k + 1) * 32768, |c|)..]
  }

  lemma Abandon(a: seq<byte>, c: seq<byte>, done: seq<byte>, size: nat, i: nat, b: seq<byte>)
    requires i < NumBlocks(size) && CompactedUpTo(a, c, done, size, i) && i * 32768 <= |c| == |b|
    requires b[..i * 32768] == a[..i * 32768]
    requires b[Min(i * 32768 + MAX_BLOCK_SIZE, |c|)..] == a[Min(i * 32768 + MAX_BLOCK_SIZE, |c|)..]
    ensures AbandonedAt(b, c, done, i)
  {
    BlockDataSizeIs(size, i);
    var start, end := i * 32768, Min(i * 32768 + MAX_BLOCK_SIZE, |c|);
    assert |done| <= start && end == Min((i + 1) * 32768, |c|);
    assert b[..|done|] == b[..start][..|done|] && a[..|done|] == a[..start][..|done|];
    assert a[end..] == a[start..][end - start..] && c[end..] == c[start..][end - start..];
  }

  /** Moving block i's plaintext down does not reach block i + 1. */
  lemma CompactStep(a: seq<byte>, c: seq<byte>, done: seq<byte>, x: seq<byte>, size: nat, i: nat, b: seq<byte>,
                    start: nat, end: nat)
    requires i < NumBlocks(size) && CompactedUpTo(a, c, done, size, i)
    requires |x| == BlockDataSize(size, i)
    requires start == i * 32768 && end == Min(start + MAX_BLOCK_SIZE, |c|)
    requires start + |x| <= end && |b| == |a|
    requires b[..start] == a[..start] && b[end..] == a[end..] && b[start..start + |x|] == x
    ensures |done| + |x| <= |b|
    ensures CompactedUpTo(Splice(b, |done|, x), c, done + x, size, i + 1)
  {
    BlockDataSizeIs(size, i);
    assert PlainStart(i) <= i * 32768 && PlainStart(i + 1) <= (i + 1) * 32768;
    assert |done| <= start && |done + x| == BlockStart(size, i + 1);
    assert (i + 1) * 32768 <= |c| ==> end == (i + 1) * 32768 && |done| + |x| <= end;
    hide BlockStart, PlainStart, BlockDataSize, NumBlocks, Min;
    var d := Splice(b, |done|, x);
    assert b[..|done|] == b[..start][..|done|] && a[..|done|] == a[..start][..|done|];
    assert d[..|done + x|] == b[..|done|] + x;
    if (i + 1) * 32768 <= |c| {
      assert d[end..] == b[end..];
      assert a[end..] == a[start..][end - start..];
      assert c[end..] == c[start..][end - start..];
    }
  }

  /** One turn of DecryptAllBlocks' loop: decrypts block i where it lies and moves its plaintext down to `offset`. */
  method DecryptTurn(gcm: Cipher, buf: array<byte>, initialNonce: Nonce, version: byte, plaintextSize: nat,
                     i: nat, offset: nat, ghost c: seq<byte>, ghost done: seq<byte>)
    returns (r: Outcome<nat>)
    requires gcm.Valid() && i < NumBlocks(plaintextSize) && offset == |done|
    requires CompactedUpTo(buf[..], c, done, plaintextSize, i)
    modifies buf
    ensures match OpenAt(gcm, c, initialNonce, version, plaintextSize, i)
      case Panic => r == Panic
      case Err(e) => r == Err(e) && AbandonedAt(buf[..], c, done, i)
      case Ok(x) => r == Ok(|x|) && CompactedUpTo(buf[..], c, done + x, plaintextSize, i + 1)
  {
    hide CompactedUpTo, AbandonedAt, OpenAt, OpenBlock, BlockSlice, BlockDataSize, NumBlocks, Splice;
    var start := i * 32768;
    var end := Min(start + MAX_BLOCK_SIZE, buf.Length);
    ghost var a := buf[..];
    StillSealed(a, c, done, plaintextSize, i);
    OpenAtIs(gcm, c, initialNonce, version, plaintextSize, i);
    OpenAtIs(gcm, a, initialNonce, version, plaintextSize, i);
    if start > end {
      return Panic;
    }
    ghost var spec := OpenBlock(gcm, a[start..end], initialNonce, version, i, plaintextSize);
    r := DecryptBlock(gcm, buf, start, end, initialNonce, version, i, plaintextSize);
    if r.Ok? {
      CompactStep(a, c, done, spec.value, plaintextSize, i, buf[..], start, end);
      assert buf[start..start + r.value] == buf[..][start..start + r.value];
      Move(buf, offset, start, r.value);
    } else {
      Abandon(a, c, done, plaintextSize, i, buf[..]);
    }
  }

  lemma OpenAtIs(g: Cipher, c: seq<byte>, nonce: Nonce, version: byte, size: nat, i: nat)
    ensures BlockSlice(c, i) == var start, end := i * 32768, Min(i * 32768 + MAX_BLOCK_SIZE, |c|);
                                if start > end then Panic else Ok(c[start..end])
    ensures OpenAt(g, c, nonce, version, size, i) ==
            match BlockSlice(c, i)
            case Panic => Panic
            case Err(e) => Err(e)
            case Ok(blk) => OpenBlock(g, blk, nonce, version, i, size)
  {
    hide OpenBlock;
  }

  lemma StillSealed(a: seq<byte>, c: seq<byte>, done: seq<byte>, size: nat, i: nat)
    requires CompactedUpTo(a, c, done, size, i)
    ensures |a| == |c|
    ensures BlockSlice(a, i) == BlockSlice(c, i)
  {
    var start, end := i * 32768, Min(i * 32768 + MAX_BLOCK_SIZE, |c|);
    if start <= end {
      assert a[start..end] == a[start..][..end - start] && c[start..end] == c[start..][..end - start];
    }
  }

  lemma CompactEnds(a: seq<byte>, c: seq<byte>, done: seq<byte>, size: nat)
    ensures CompactedUpTo(c, c, [], size, 0)
    ensures CompactedUpTo(a, c, done, size, NumBlocks(size)) ==>
              |done| <= |a| && Splice(a, |done|, Zeros(|a| - |done|)) == done + Zeros(|a| - |done|)
  {
  }

  lemma UntilFailure(g: Cipher, c: seq<byte>, nonce: Nonce, version: byte, size: nat, i: nat, done: seq<byte>)
    requires i < NumBlocks(size)
    ensures var at := OpenAt(g, c, nonce, version, size, i); var rest := OpenedUntilFailure(g, c, nonce, version, size, i);
            if at.Ok? then
              && FirstFailure(g, c, nonce, version, size, i) == FirstFailure(g, c, nonce, version, size, i + 1)
              && done + rest == done + at.value + OpenedUntilFailure(g, c, nonce, version, size, i + 1)
            else FirstFailure(g, c, nonce, version, size, i) == i && done + rest == done
  {
    hide NumBlocks, OpenAt;
  }

  /** The loop of DecryptAllBlocks, and the clearing after it. */
  method OpenBlocks(gcm: Cipher, buf: array<byte>, initialNonce: Nonce, version: byte, plaintextSize: nat)
    returns (r: Outcome<nat>)
    requires gcm.Valid()
    modifies buf
    ensures match OpenFrom(gcm, old(buf[..]), initialNonce, version, plaintextSize, 0)
      case Panic => r == Panic
      case Err(e) =>
        && r == Err(e)
        && AbandonedAt(buf[..], old(buf[..]),
                       OpenedUntilFailure(gcm, old(buf[..]), initialNonce, version, plaintextSize, 0),
                       FirstFailure(gcm, old(buf[..]), initialNonce, version, plaintextSize, 0))
      case Ok(p) => r == Ok(|p|) && |p| <= buf.Length && buf[..] == p + Zeros(buf.Length - |p|)
  {
    hide CompactedUpTo, AbandonedAt, OpenAt, NumBlocks, Splice;
    ghost var c := buf[..];
    ghost var done: seq<byte> := [];
    var numBlocks := NumBlocks(plaintextSize);
    var offset := 0;
    var i := 0;
    ghost var spec := OpenFrom(gcm, c, initialNonce, version, plaintextSize, 0);
    PrependNothing(spec);
    CompactEnds(c, c, done, plaintextSize);
    while i < numBlocks
      invariant 0 <= i <= numBlocks
      invariant CompactedUpTo(buf[..], c, done, plaintextSize, i)
      invariant offset == |done|
      invariant spec == Prepend(done, OpenFrom(gcm, c, initialNonce, version, plaintextSize, i))
      invariant FirstFailure(gcm, c, initialNonce, version, plaintextSize, 0)
             == FirstFailure(gcm, c, initialNonce, version, plaintextSize, i)
      invariant OpenedUntilFailure(gcm, c, initialNonce, version, plaintextSize, 0)
             == done + OpenedUntilFailure(gcm, c, initialNonce, version, plaintextSize, i)
    {
      var n := DecryptTurn(gcm, buf, initialNonce, version, plaintextSize, i, offset, c, done);
      UntilFailure(gcm, c, initialNonce, version, plaintextSize, i, done);
      if !n.Ok? {
        return n;
      }
      ghost var x := OpenAt(gcm, c, initialNonce, version, plaintextSize, i).value;
      PrependTwice(done, x, OpenFrom(gcm, c, initialNonce, version, plaintextSize, i + 1));
      done := done + x;
      offset := offset + n.value;
      i := i + 1;
    }
    assert done + [] == done;
    CompactEnds(buf[..], c, done, plaintextSize);
    Write(buf, offset, Zeros(buf.Length - offset));
    r := Ok(offset);
  }

  method DecryptAllBlocks(suite: Suite, key: seq<byte>, buf: array<byte>, info: string, version: byte)
    returns (r: Outcome<nat>)
    requires ValidSuite(suite)
    modifies buf
    ensures match Decrypted(suite, key, old(buf[..]), info, version)
      case Panic => r == Panic
      case Err(e) =>
        && r == Err(e)
        && (if e != NotAuthentic then buf[..] == old(buf[..])
            else ParseHeader(old(buf[..])).Ok? && suite(key, info).Some? &&
                 var h, g := ParseHeader(old(buf[..])).value, suite(key, info).value;
                 AbandonedAt(buf[..], old(buf[..]), OpenedUntilFailure(g, old(buf[..]), h.nonce, version, h.size, 0),
                             FirstFailure(g, old(buf[..]), h.nonce, version, h.size, 0)))
      case Ok(p) => r == Ok(|p|) && |p| <= buf.Length && buf[..] == p + Zeros(buf.Length - |p|)
  {
    hide OpenFrom, OpenedUntilFailure, FirstFailure, AbandonedAt;
    var header := ParseHeader(buf[..]);
    if !header.Ok? {
      return Err(HeaderTooShort);
    }
    if header.value.version != version {
      return Err(VersionMismatch);
    }
    var cipher := suite(key, info);
    if cipher.None? {
      return Err(NoCipher);
    }
    OnlyAuthenticationFails(cipher.value, buf[..], header.value.nonce, version, header.value.size, 0);
    r := OpenBlocks(cipher.value, buf, header.value.nonce, version, header.value.size);
  }

  lemma RoomFor(len: nat)
    requires len > 0
    ensures len + Overhead(len) == CiphertextSize(len) > len
  {
    CiphertextSizeBounds(len);
  }

  /** The two in-place operations compose to the identity: for every key, info and plaintext of 1 to 2^32 - 1
      bytes, in every buffer with room for the overhead, decrypting exactly the bytes written by Encrypt
      leaves the plaintext at the start and zeros after it. */
  method EncryptThenDecrypt(suite: Suite, key: seq<byte>, plaintext: seq<byte>, spare: nat, info: string, nonce: Nonce)
    returns (buf: array<byte>, r: Outcome<nat>)
    requires ValidSuite(suite) && suite(key, info).Some?
    requires 0 < |plaintext| < 0x1_0000_0000
    ensures r == Ok(|plaintext|)
    ensures buf.Length == |plaintext| + Overhead(|plaintext|)
    ensures buf[..] == plaintext + Zeros(Overhead(|plaintext|))
  {
    hide Overhead, CiphertextSize, NumBlocks, LastPadded, Ciphertext, Decrypted, Splice, OpenedUntilFailure, FirstFailure;
    RoomFor(|plaintext|);
    var room := |plaintext| + Overhead(|plaintext|);
    var work := new byte[room + spare];
    SpliceParts(work[..], 0, plaintext, 0, room);
    Write(work, 0, plaintext);
    assert work[..|plaintext|] == plaintext;
    var n := Encrypt(suite, key, work, |plaintext|, info, Some(nonce));
    var written := work[..n.value];
    buf := new byte[room](i requires 0 <= i < |written| => written[i]);
    assert buf[..] == written;
    RoundTripIff(suite, key, info, nonce, plaintext);
    r := DecryptAllBlocks(suite, key, buf, info, VERSION);
  }
}
