/** Uploading and downloading one chunk on the older path: encryption of the whole chunk at once, optional
    erasure coding, and a DAG of equal blocks. */
module ChunkV1 {
  import opened Base
  import opened Pieces
  import opened Aead
  import opened ErasureCode
  import opened ProtoScan

  // ---- encryption of a whole buffer

  const OVERHEAD := 28

  function Sealed(g: Cipher, nonce: Nonce, m: Bytes): Bytes { nonce + g.seal(nonce, m) }

  /** encryption.Encrypt: shifts the data to make room for the nonce, and seals it where it is.
      The buffer's length is the capacity of the caller's slice of `len` bytes. */
  method Encrypt(suite: Suite, key: seq<byte>, buf: array<byte>, len: nat, info: string, random: Option<Nonce>)
    returns (r: Outcome<nat>)
    requires ValidSuite(suite) && len <= buf.Length
    modifies buf
    ensures r == if suite(key, info).None? then Err(NoCipher)
                 else if buf.Length < len + OVERHEAD then Err(BufferTooSmall)
                 else if random.None? then Err(NoRandomness) else Ok(len + OVERHEAD)
    ensures r.Ok? ==> buf[..r.value] == Sealed(suite(key, info).value, random.value, old(buf[..len]))
                      && buf[r.value..] == old(buf[r.value..])
    ensures r == Err(NoCipher) || r == Err(BufferTooSmall) ==> buf[..] == old(buf[..])
  {
    var cipher := suite(key, info);
    if cipher.None? {
      return Err(NoCipher);
    }
    if buf.Length < len + OVERHEAD {
      return Err(BufferTooSmall);
    }
    ghost var before := buf[..];
    assert buf[0..0 + len] == before[..len];
    Move(buf, NONCE_SIZE, 0, len);
    if random.None? {
      return Err(NoRandomness);
    }
    ghost var shifted := buf[..];
    Write(buf, 0, random.value);
    SpliceParts(before, NONCE_SIZE, before[..len], NONCE_SIZE, NONCE_SIZE + len);
    NonceAside(shifted, random.value, len);
    assert buf[NONCE_SIZE..NONCE_SIZE + len] == buf[..][NONCE_SIZE..NONCE_SIZE + len] == before[..len];
    var ciphertext := cipher.value.seal(random.value, buf[NONCE_SIZE..NONCE_SIZE + len]);
    Write(buf, NONCE_SIZE, ciphertext);
    SealedParts(shifted, random.value, ciphertext);
    assert buf[..len + OVERHEAD] == buf[..][..len + OVERHEAD];
    assert buf[len + OVERHEAD..] == buf[..][len + OVERHEAD..] == shifted[len + OVERHEAD..];
    assert shifted[len + OVERHEAD..] == before[len + OVERHEAD..];
    r := Ok(len + OVERHEAD);
  }

  lemma NonceAside(shifted: Bytes, nonce: Nonce, len: nat)
    requires NONCE_SIZE + len <= |shifted|
    ensures Splice(shifted, 0, nonce)[NONCE_SIZE..NONCE_SIZE + len] == shifted[NONCE_SIZE..NONCE_SIZE + len]
  {
  }

  lemma SealedParts(shifted: Bytes, nonce: Bytes, sealed: Bytes)
    requires |nonce| == NONCE_SIZE && NONCE_SIZE + |sealed| <= |shifted|
    ensures Splice(Splice(shifted, 0, nonce), NONCE_SIZE, sealed)
         == nonce + sealed + shifted[NONCE_SIZE + |sealed|..]
  {
  }

  function Opened(suite: Suite, key: seq<byte>, c: Bytes, info: string): Outcome<Bytes> {
    match suite(key, info)
    case None => Err(NoCipher)
    case Some(g) =>
      if |c| < OVERHEAD then Err(UnexpectedEof)
      else
        match g.open(c[..NONCE_SIZE], c[NONCE_SIZE..])
        case None => Err(NotAuthentic)
        case Some(m) => Ok(m)
  }

  /** encryption.Decrypt: opens in place; the plaintext is the returned number of bytes behind the nonce. When
      authentication fails, opening may have overwritten everything behind the nonce; here it clears the place
      of the plaintext. */
  method Decrypt(suite: Suite, key: seq<byte>, buf: array<byte>, info: string) returns (r: Outcome<nat>)
    requires ValidSuite(suite)
    modifies buf
    ensures match Opened(suite, key, old(buf[..]), info)
            case Ok(m) => r == Ok(|m|) && NONCE_SIZE + |m| <= buf.Length && buf[NONCE_SIZE..NONCE_SIZE + |m|] == m
            case Err(e) =>
              && r == Err(e)
              && (if e == NotAuthentic then buf.Length >= OVERHEAD && buf[..NONCE_SIZE] == old(buf[..NONCE_SIZE])
                  else buf[..] == old(buf[..]))
            case Panic => false
  {
    var cipher := suite(key, info);
    if cipher.None? {
      return Err(NoCipher);
    }
    if buf.Length < OVERHEAD {
      return Err(UnexpectedEof);
    }
    assert buf[..NONCE_SIZE] == buf[..][..NONCE_SIZE] && buf[NONCE_SIZE..] == buf[..][NONCE_SIZE..];
    var plain := cipher.value.open(buf[..NONCE_SIZE], buf[NONCE_SIZE..]);
    ghost var before := buf[..];
    if plain.None? {
      Write(buf, NONCE_SIZE, Zeros(buf.Length - OVERHEAD));
      SpliceParts(before, NONCE_SIZE, Zeros(buf.Length - OVERHEAD), NONCE_SIZE, buf.Length);
      assert buf[..NONCE_SIZE] == buf[..][..NONCE_SIZE];
      return Err(NotAuthentic);
    }
    Write(buf, NONCE_SIZE, plain.value);
    SpliceParts(before, NONCE_SIZE, plain.value, NONCE_SIZE, NONCE_SIZE + |plain.value|);
    assert buf[NONCE_SIZE..NONCE_SIZE + |plain.value|] == buf[..][NONCE_SIZE..NONCE_SIZE + |plain.value|];
    r := Ok(|plain.value|);
  }

  /** Every plaintext, also an empty one, is decrypted under the key, the info and whatever nonce sealed it. */
  lemma OpensSealed(suite: Suite, key: seq<byte>, info: string, nonce: Nonce, m: Bytes)
    requires ValidSuite(suite) && suite(key, info).Some?
    ensures Opened(suite, key, Sealed(suite(key, info).value, nonce, m), info) == Ok(m)
    ensures |Sealed(suite(key, info).value, nonce, m)| == |m| + OVERHEAD
  {
  }

  /** Encrypted bytes: the nonce, and then the seal. */
  lemma SealedBytes(g: Cipher, nonce: Nonce, m: Bytes)
    ensures Sealed(g, nonce, m)[..12] == nonce && Sealed(g, nonce, m)[12..] == g.seal(nonce, m)
  {
  }

  /** Exactly what decrypts to which plaintext, and how the rest fails. */
  lemma OpenedIff(suite: Suite, key: seq<byte>, c: Bytes, info: string, m: Bytes)
    ensures Opened(suite, key, c, info) == Ok(m) <==>
              suite(key, info).Some? && |c| >= 28 && suite(key, info).value.open(c[..12], c[12..]) == Some(m)
    ensures Opened(suite, key, c, info) == Err(NoCipher) <==> suite(key, info).None?
    ensures Opened(suite, key, c, info) == Err(UnexpectedEof) <==> suite(key, info).Some? && |c| < 28
    ensures Opened(suite, key, c, info) == Err(NotAuthentic) <==>
              suite(key, info).Some? && |c| >= 28 && suite(key, info).value.open(c[..12], c[12..]) == None
  {
  }

  // ---- the chunk

  const BLOCK_SIZE := 1000000

  /** The SDK's settings. */
  datatype Settings = Settings(encrypted: bool, coder: Option<Coder>, maxBlocks: nat)
  {
    /** What the SDK's constructor admits: at least two blocks in a chunk, and with erasure coding as many shards
        as blocks, at most half of them parity. */
    ghost predicate Admitted() {
      && 2 <= maxBlocks
      && (coder.Some? ==> coder.value.Valid() && coder.value.Total() == maxBlocks && coder.value.m <= maxBlocks / 2)
    }

    /** The DAG of a chunk has one level of leaves. */
    ghost predicate Valid() {
      Admitted() && maxBlocks <= 1024
    }
  }

  /** What the chunk's blocks are cut from, given its encrypted or plain data. */
  function StoredData(s: Settings, data: Bytes): Bytes
    requires s.coder.Some? ==> s.coder.value.k > 0
  {
    match s.coder
    case None => data
    case Some(c) => Flatten(EncodedRaw(c, Wrapped(data)).value)
  }

  function BlockSizeOf(s: Settings, stored: Bytes): nat {
    match s.coder
    case None => BLOCK_SIZE
    case Some(c) => if c.Total() == 0 then 0 else |stored| / c.Total()
  }

  /** The raw blocks that stand for the data. */
  function RawBlocks(s: Settings, data: Bytes): seq<Bytes>
    requires s.coder.Some? ==> s.coder.value.k > 0
  {
    var stored := StoredData(s, data);
    if BlockSizeOf(s, stored) == 0 then [] else Cut(stored, BlockSizeOf(s, stored))
  }

  function Leaves(blocks: seq<Bytes>): seq<Bytes> {
    seq(|blocks|, i requires 0 <= i < |blocks| => Leaf(blocks[i]))
  }

  /** With erasure coding the blocks are the shards. */
  lemma BlocksAreShards(s: Settings, data: Bytes)
    requires s.Valid() && s.coder.Some?
    ensures EncodedRaw(s.coder.value, Wrapped(data)).Ok?
    ensures RawBlocks(s, data) == EncodedRaw(s.coder.value, Wrapped(data)).value
    ensures Uniform(RawBlocks(s, data), s.coder.value.Total())
    ensures |RawBlocks(s, data)[0]| == CeilDiv(|data| + WRAP_OVERHEAD, s.coder.value.k)
  {
    hide Wrapped, Cut, CeilDiv, Flatten;
    var c := s.coder.value;
    var shards := EncodedRaw(c, Wrapped(data)).value;
    SplitShape(c, Wrapped(data));
    CodewordShape(c, Split(c, Wrapped(data)).value);
    CutFlatten(shards, |shards[0]|);
    FlattenLength(shards, |shards[0]|);
    DivIs(|Flatten(shards)|, c.Total(), |shards[0]|);
  }

  /** What is stored of a chunk's data: the data, or its encryption. */
  function ToStore(s: Settings, suite: Suite, key: seq<byte>, info: string, random: Option<Nonce>, data: Bytes): Bytes
    requires s.encrypted ==> suite(key, info).Some? && random.Some?
  {
    if s.encrypted then Sealed(suite(key, info).value, random.value, data) else data
  }

  /** The leaf nodes of raw blocks. */
  method MakeLeaves(raw: seq<Bytes>) returns (blocks: seq<Bytes>)
    ensures blocks == Leaves(raw)
  {
    hide Leaf;
    blocks := [];
    for i := 0 to |raw|
      invariant blocks == Leaves(raw)[..i]
    {
      TailCons(Leaves(raw), i);
      blocks := blocks + [Leaf(raw[i])];
    }
  }

  /** Erasure-codes the first n bytes of the buffer, wrapping them in it if there is room, and cuts the result
      into the leaves of the chunk's DAG. */
  method CutIntoLeaves(s: Settings, buf: array<byte>, n: nat) returns (blocks: seq<Bytes>)
    requires s.Valid() && n <= buf.Length
    modifies buf
    ensures blocks == Leaves(RawBlocks(s, old(buf[..n])))
    ensures buf[..] == if s.coder.Some? && n + WRAP_OVERHEAD <= buf.Length
                       then Wrapped(old(buf[..n])) + old(buf[n + WRAP_OVERHEAD..]) else old(buf[..])
  {
    hide Wrapped, Cut, EncodedRaw, Flatten, Leaves, CeilDiv, Uniform;
    ghost var data := buf[..n];
    var stored := buf[..n];
    var blockSize := BLOCK_SIZE;
    if s.coder.Some? {
      BlocksAreShards(s, data);
      stored := Encode(s.coder.value, buf, n);
      blockSize := |stored| / s.coder.value.Total();
    }
    BlockSizePositive(s, data);
    blocks := MakeLeaves(Cut(stored, blockSize));
  }

  /** Without erasure coding, block k holds the k-th million bytes. */
  lemma RawBlockBytes(s: Settings, data: Bytes, k: nat)
    requires s.coder.None? && k < |RawBlocks(s, data)|
    ensures 0 <= k * 1000000 < |data|
    ensures RawBlocks(s, data)[k] == data[k * 1000000..Min(k * 1000000 + 1000000, |data|)]
  {
    CutAt(data, 1000000, k);
  }

  /** createChunkUpload: encrypts and erasure-codes inside the caller's buffer, and cuts the result into the
      leaves of the chunk's DAG. The caller passes at least one byte. In a buffer of the size and capacity of
      calculateBufferSizeAndCapacity there is always room to encrypt, and with erasure coding the wrapping
      happens in the buffer too. */
  method CreateChunkUpload(s: Settings, suite: Suite, key: seq<byte>, buf: array<byte>, len: nat, info: string,
                           random: Option<Nonce>)
    returns (r: Outcome<seq<Bytes>>)
    requires s.Valid() && ValidSuite(suite) && 0 < len <= buf.Length
    modifies buf
    ensures r.Ok? <==> (s.encrypted ==> suite(key, info).Some? && len + OVERHEAD <= buf.Length && random.Some?)
    ensures !r.Ok? ==> r == Err(if suite(key, info).None? then NoCipher
                                else if buf.Length < len + OVERHEAD then BufferTooSmall else NoRandomness)
    ensures r.Ok? ==> r.value == Leaves(RawBlocks(s, ToStore(s, suite, key, info, random, old(buf[..len]))))
    ensures len <= BufferSize(s) && buf.Length == BufferCapacity(s) ==> r != Err(BufferTooSmall)
    ensures r.Ok? && s.coder.Some? && len <= BufferSize(s) && buf.Length == BufferCapacity(s) ==>
              var stored := ToStore(s, suite, key, info, random, old(buf[..len]));
              |stored| + WRAP_OVERHEAD <= buf.Length && buf[..|stored| + WRAP_OVERHEAD] == Wrapped(stored)
  {
    hide Wrapped, Sealed, RawBlocks, Leaves;
    BufferSuffices(s, len);
    ghost var stored := buf[..len];
    var n := len;
    if s.encrypted {
      var sealed := Encrypt(suite, key, buf, len, info, random);
      if sealed.Err? {
        return Err(sealed.error);
      }
      n := sealed.value;
      stored := Sealed(suite(key, info).value, random.value, stored);
    }
    assert buf[..n] == stored;
    var blocks := CutIntoLeaves(s, buf, n);
    ghost var m := n + WRAP_OVERHEAD;
    assert m <= buf.Length ==> buf[..m] == buf[..][..m];
    r := Ok(blocks);
  }

  lemma BlockSizePositive(s: Settings, data: Bytes)
    requires s.Valid()
    ensures BlockSizeOf(s, StoredData(s, data)) > 0
  {
    hide Wrapped, Cut, EncodedRaw, Flatten, CeilDiv;
    if s.coder.Some? {
      BlocksAreShards(s, data);
    }
  }

  // ---- downloading

  /** A block as a download goroutine hands it over: its position in the chunk, the codec of its CID, its bytes. */
  datatype Retrieved = Retrieved(pos: nat, codec: Codec, data: Bytes)

  /** The goroutines finish in any order, each handing over the DAG node of its own position. */
  ghost predicate Arrived(blocks: seq<Bytes>, arrivals: seq<Retrieved>) {
    && (forall a :: a in arrivals ==> a.pos < |blocks| && a == Retrieved(a.pos, DagProtobuf, blocks[a.pos]))
    && (forall i: nat :: i < |blocks| ==> Retrieved(i, DagProtobuf, blocks[i]) in arrivals)
  }

  function LastAt(arrivals: seq<Retrieved>, i: nat): Option<Retrieved> {
    if arrivals == [] then None
    else if arrivals[|arrivals| - 1].pos == i then Some(arrivals[|arrivals| - 1])
    else LastAt(arrivals[..|arrivals| - 1], i)
  }

  ghost predicate Readable(arrivals: seq<Retrieved>) {
    forall a :: a in arrivals ==> BlockPayload(a.codec, a.data).Some?
  }

  /** The payload at each position, nothing where no block arrived. */
  function Placed(n: nat, arrivals: seq<Retrieved>): seq<Bytes> {
    seq(n, i requires 0 <= i < n => PayloadAt(arrivals, i))
  }

  function PayloadAt(arrivals: seq<Retrieved>, i: nat): Bytes {
    match LastAt(arrivals, i)
    case None => []
    case Some(a) => match BlockPayload(a.codec, a.data) case None => [] case Some(payload) => payload
  }

  lemma PlacedNext(n: nat, arrivals: seq<Retrieved>, a: Retrieved)
    requires a.pos < n && BlockPayload(a.codec, a.data).Some?
    ensures Placed(n, arrivals + [a]) == Placed(n, arrivals)[a.pos := BlockPayload(a.codec, a.data).value]
  {
    hide BlockPayload;
    assert (arrivals + [a])[..|arrivals|] == arrivals;
  }

  /** The loop that unwraps each arriving block and puts it at its position. */
  method Collect(n: nat, arrivals: seq<Retrieved>) returns (r: Outcome<array<Bytes>>)
    requires forall a :: a in arrivals ==> a.pos < n
    ensures if Readable(arrivals) then r.Ok? && fresh(r.value) && r.value[..] == Placed(n, arrivals)
            else r == Err(MalformedBlock)
  {
    hide BlockPayload, Placed;
    NonePlaced(n);
    var blocks := new Bytes[n](_ => []);
    assert blocks[..] == Placed(n, []);
    for k := 0 to |arrivals|
      invariant Readable(arrivals[..k])
      invariant blocks[..] == Placed(n, arrivals[..k])
    {
      var a := arrivals[k];
      assert a in arrivals;
      var data := ExtractBlockData(a.codec, a.data);
      if data.None? {
        return Err(MalformedBlock);
      }
      PlacedNext(n, arrivals[..k], a);
      assert arrivals[..k + 1] == arrivals[..k] + [a];
      blocks[a.pos] := data.value;
    }
    assert arrivals[..|arrivals|] == arrivals;
    r := Ok(blocks);
  }

  lemma NonePlaced(n: nat)
    ensures Placed(n, []) == seq(n, _ => [])
  {
  }

  function Downloaded(s: Settings, suite: Suite, key: seq<byte>, n: nat, arrivals: seq<Retrieved>, info: string)
    : Outcome<Bytes>
    requires s.coder.Some? ==> s.coder.value.Total() > 0
  {
    var blocks := Placed(n, arrivals);
    var data := match s.coder case None => Ok(Flatten(blocks)) case Some(c) => Extracted(c, blocks);
    match data
    case Panic => Panic
    case Err(e) => Err(e)
    case Ok(d) => if s.encrypted then Opened(suite, key, d, info) else Ok(d)
  }

  /** downloadChunkBlocks, once all blocks have arrived. */
  method DownloadChunkBlocks(s: Settings, suite: Suite, key: seq<byte>, n: nat, arrivals: seq<Retrieved>,
                             info: string)
    returns (r: Outcome<Bytes>)
    requires s.Valid() && ValidSuite(suite)
    requires forall a :: a in arrivals ==> a.pos < n
    ensures r == if Readable(arrivals) then Downloaded(s, suite, key, n, arrivals, info) else Err(MalformedBlock)
  {
    hide Placed, Extracted, Opened, Readable;
    var collected := Collect(n, arrivals);
    if collected.Err? {
      return Err(collected.error);
    }
    var blocks := collected.value;
    var data: Bytes;
    if s.coder.Some? {
      var extracted := ExtractData(s.coder.value, blocks);
      if !extracted.Ok? {
        return extracted;
      }
      data := extracted.value;
    } else {
      data := Concatenate(blocks[..]);
    }
    if s.encrypted {
      var buf := new byte[|data|](i requires 0 <= i < |data| => data[i]);
      assert buf[..] == data;
      var m := Decrypt(suite, key, buf, info);
      if m.Err? {
        return Err(m.error);
      }
      data := buf[NONCE_SIZE..NONCE_SIZE + m.value];
    }
    r := Ok(data);
  }

  /** Nothing is placed where no block arrived. */
  lemma {:induction false} NothingArrived(n: nat, arrivals: seq<Retrieved>, i: nat)
    requires i < n && forall a :: a in arrivals ==> a.pos != i
    ensures Placed(n, arrivals)[i] == []
  {
    hide BlockPayload;
    if arrivals == [] {
    } else {
      NothingArrived(n, arrivals[..|arrivals| - 1], i);
      assert arrivals[|arrivals| - 1] in arrivals;
    }
  }

  /** When a download fails although every block could be read: as extraction fails, or as decryption of the joined or
      extracted bytes does; and then with the same error. */
  lemma DownloadFails(s: Settings, suite: Suite, key: seq<byte>, n: nat, arrivals: seq<Retrieved>, info: string)
    requires s.Valid()
    ensures var blocks := Placed(n, arrivals); var r := Downloaded(s, suite, key, n, arrivals, info);
            var e := match s.coder case None => Ok(Flatten(blocks)) case Some(c) => Extracted(c, blocks);
            && (!e.Ok? ==> r == e)
            && (e.Ok? && s.encrypted && !Opened(suite, key, e.value, info).Ok? ==>
                  r == Opened(suite, key, e.value, info))
            && (r.Ok? <==> e.Ok? && (s.encrypted ==> Opened(suite, key, e.value, info).Ok?))
  {
    hide Placed, Extracted, Flatten, Opened;
  }

  // ---- the round trip

  lemma {:induction false} LastOfPos(arrivals: seq<Retrieved>, a: Retrieved)
    requires a in arrivals && forall b :: b in arrivals && b.pos == a.pos ==> b == a
    ensures LastAt(arrivals, a.pos) == Some(a)
  {
    var last := arrivals[|arrivals| - 1];
    assert arrivals == arrivals[..|arrivals| - 1] + [last];
    if last.pos == a.pos {
    } else {
      LastOfPos(arrivals[..|arrivals| - 1], a);
    }
  }

  /** In whatever order the leaves arrive, their payloads end up in their positions. */
  lemma PlacesLeaves(blocks: seq<Bytes>, arrivals: seq<Retrieved>)
    requires Arrived(Leaves(blocks), arrivals)
    requires forall b :: b in blocks ==> |b| < 0x8000_0000_0000_0000
    ensures Readable(arrivals) && Placed(|blocks|, arrivals) == blocks
  {
    hide Leaf, BlockPayload;
    forall i: nat | i < |blocks|
      ensures BlockPayload(DagProtobuf, Leaves(blocks)[i]) == Some(blocks[i])
    {
      LeafRoundTrip(blocks[i]);
    }
    forall i: nat | i < |blocks|
      ensures LastAt(arrivals, i) == Some(Retrieved(i, DagProtobuf, Leaves(blocks)[i]))
    {
      LastOfPos(arrivals, Retrieved(i, DagProtobuf, Leaves(blocks)[i]));
    }
  }

  /** The raw blocks give the stored data back: by joining them, or by extraction. */
  lemma StoredRoundTrip(s: Settings, data: Bytes)
    requires s.Valid() && |data| < 0x4000_0000_0000_0000
    ensures match s.coder
            case None => Flatten(RawBlocks(s, data)) == data
            case Some(c) => Extracted(c, RawBlocks(s, data)) == Ok(data)
  {
    hide Wrapped, Cut, EncodedRaw, Extracted, Flatten, CeilDiv;
    if s.coder.Some? {
      BlocksAreShards(s, data);
      var shards := RawBlocks(s, data);
      NoneMissing(shards);
      ExtractsEncoded(s.coder.value, data, shards);
    } else {
      FlattenCut(data, BLOCK_SIZE);
    }
  }

  lemma BlocksAreShort(s: Settings, data: Bytes)
    requires s.Valid() && |data| < 0x4000_0000_0000_0000
    ensures forall b :: b in RawBlocks(s, data) ==> |b| < 0x8000_0000_0000_0000
  {
    hide Wrapped, EncodedRaw, Extracted, Flatten, CeilDiv;
    if s.coder.Some? {
      BlocksAreShards(s, data);
      CeilDivAtMost(|data| + WRAP_OVERHEAD, s.coder.value.k);
    } else {
      forall b | b in RawBlocks(s, data)
        ensures |b| <= BLOCK_SIZE
      {
        var k :| 0 <= k < |RawBlocks(s, data)| && RawBlocks(s, data)[k] == b;
        CutAt(data, BLOCK_SIZE, k);
      }
    }
  }

  lemma CeilDivAtMost(a: nat, b: nat)
    requires b > 0
    ensures CeilDiv(a, b) <= a
  {
    CeilDivBounds(a, b);
    var q := CeilDiv(a, b);
    assert (a + 1) * b == a * b + b;
    MulMono(1, b, a);
    if q > a {
      MulMono(a + 1, q, b);
    }
  }

  /** What createChunkUpload stores, downloadChunkBlocks returns: for every combination of encryption and
      erasure coding, every chunk, and every order in which its blocks arrive. */
  lemma ChunkRoundTrip(s: Settings, suite: Suite, key: seq<byte>, info: string, nonce: Nonce, data: Bytes,
                       arrivals: seq<Retrieved>)
    requires s.Valid() && ValidSuite(suite) && (s.encrypted ==> suite(key, info).Some?)
    requires |data| < 0x2000_0000_0000_0000
    requires var stored := if s.encrypted then Sealed(suite(key, info).value, nonce, data) else data;
             Arrived(Leaves(RawBlocks(s, stored)), arrivals)
    ensures var stored := if s.encrypted then Sealed(suite(key, info).value, nonce, data) else data;
            Readable(arrivals)
            && Downloaded(s, suite, key, |RawBlocks(s, stored)|, arrivals, info) == Ok(data)
  {
    hide Sealed, RawBlocks, Extracted, Opened, Readable, Placed, Arrived, Flatten, Leaves;
    var stored := if s.encrypted then Sealed(suite(key, info).value, nonce, data) else data;
    if s.encrypted {
      OpensSealed(suite, key, info, nonce, data);
    }
    BlocksAreShort(s, stored);
    PlacesLeaves(RawBlocks(s, stored), arrivals);
    StoredRoundTrip(s, stored);
  }

  // ---- sizing

  function DataSize(s: Settings): nat {
    match s.coder
    case None => s.maxBlocks * 1000000
    case Some(c) => c.k * 1000000
  }

  function BufferSize(s: Settings): int { DataSize(s) - (if s.encrypted then OVERHEAD else 0) }

  function BufferCapacity(s: Settings): int {
    BufferSize(s) + (if s.encrypted then OVERHEAD else 0) + (if s.coder.Some? then WRAP_OVERHEAD else 0)
  }

  /** The sizes in numbers: a million bytes for every data block, less what encryption adds, and room for all that
      encryption and wrapping add. */
  lemma SizesInNumbers(s: Settings)
    requires s.Admitted()
    ensures var blocks := if s.coder.Some? then s.coder.value.k else s.maxBlocks;
            && BufferSize(s) == blocks * 1000000 - (if s.encrypted then 28 else 0)
            && BufferCapacity(s) == blocks * 1000000 + (if s.coder.Some? then 12 else 0)
  {
  }

  /** Whatever is read into the buffer of calculateBufferSizeAndCapacity can be encrypted in it and wrapped in
      it; and reading one byte more could not. */
  lemma BufferSuffices(s: Settings, n: nat)
    requires s.Admitted()
    ensures 0 < BufferSize(s) <= BufferCapacity(s)
    ensures var sealed := n + (if s.encrypted then OVERHEAD else 0);
            var wrapped := sealed + (if s.coder.Some? then WRAP_OVERHEAD else 0);
            (n <= BufferSize(s) <==> wrapped <= BufferCapacity(s))
            && (n <= BufferSize(s) ==> sealed <= BufferCapacity(s))
  {
  }

  lemma CeilDivPlus(k: nat, a: nat)
    requires 0 < k
    ensures CeilDiv(k * 1000000 + a, k) == 1000000 + CeilDiv(a, k)
  {
    var q := CeilDiv(a, k);
    CeilDivBounds(a, k);
    DivIs(a + k - 1, k, q);
    assert (q + 1000000) * k == q * k + k * 1000000;
    DivIs(k * 1000000 + a + k - 1, k, 1000000 + q);
  }

  lemma CeilDivMono(a: nat, b: nat, k: nat)
    requires a <= b && k > 0
    ensures CeilDiv(a, k) <= CeilDiv(b, k)
  {
    CeilDivBounds(a, k);
    CeilDivBounds(b, k);
    var p, q := CeilDiv(a, k), CeilDiv(b, k);
    assert (q + 1) * k == q * k + k;
    if p > q {
      MulMono(q + 1, p, k);
    }
  }

  /** Every chunk read with that buffer has at most maxBlocks blocks, none larger than 10^6 bytes, or with
      erasure coding than 10^6 and a k-th of the wrapping, which leaves room in 1 MiB. */
  lemma BlocksWithinLimits(s: Settings, data: Bytes)
    requires s.Valid() && |data| <= DataSize(s)
    ensures |RawBlocks(s, data)| <= s.maxBlocks
    ensures forall b :: b in RawBlocks(s, data) ==>
              |b| <= 1000000 + (match s.coder case None => 0 case Some(c) => CeilDiv(WRAP_OVERHEAD, c.k)) <= 1000012
  {
    hide Wrapped, EncodedRaw, Flatten, CeilDiv;
    match s.coder
    case Some(c) =>
      BlocksAreShards(s, data);
      CeilDivMono(|data| + WRAP_OVERHEAD, c.k * 1000000 + WRAP_OVERHEAD, c.k);
      CeilDivPlus(c.k, WRAP_OVERHEAD);
      CeilDivAtMost(WRAP_OVERHEAD, c.k);
    case None =>
      CutAt(data, BLOCK_SIZE, 0);
      CeilDivMono(|data|, s.maxBlocks * 1000000, BLOCK_SIZE);
      CeilDivOf(s.maxBlocks);
      forall b | b in RawBlocks(s, data)
        ensures |b| <= BLOCK_SIZE
      {
        var k :| 0 <= k < |RawBlocks(s, data)| && RawBlocks(s, data)[k] == b;
        CutAt(data, BLOCK_SIZE, k);
      }
  }

  lemma CeilDivOf(n: nat)
    ensures CeilDiv(n * 1000000, 1000000) == n
  {
  }
}
