/** The stream encryption format in numbers: every byte of a ciphertext, the nonces as integers, and exactly which
    byte strings decrypt to which plaintext and which fail how. */
module StreamWire {
  import opened Base
  import opened Aead
  import opened StreamSizes
  import opened StreamFormat

  // ---- nonces

  /** The last four bytes of the nonce count the blocks, modulo 2^32, from the initial nonce on. */
  lemma NonceCounts(nonce: Nonce, i: nat)
    ensures BlockNonce(nonce, 0) == nonce
    ensures BlockNonce(nonce, i)[..8] == nonce[..8]
    ensures Word(BlockNonce(nonce, i + 1)[8..]) == (Word(BlockNonce(nonce, i)[8..]) + 1) % 0x1_0000_0000
  {
    hide GetBE, PutBE, Word;
    var v := Word(nonce[8..]);
    NonceIs(nonce, 0);
    NonceIs(nonce, i);
    NonceIs(nonce, i + 1);
    CounterIs(v, i);
    FirstNonce(nonce);
  }

  lemma NonceIs(nonce: Nonce, i: nat)
    ensures BlockNonce(nonce, i)[..8] == nonce[..8]
    ensures Word(BlockNonce(nonce, i)[8..]) == (Word(nonce[8..]) + i % 0x1_0000_0000) % 0x1_0000_0000
  {
    hide GetBE, PutBE, Word;
    GetBEIsWord(nonce[8..]);
    var n := (GetBE(nonce[8..]) + i % 0x1_0000_0000) % 0x1_0000_0000;
    PutBEIsWord(n);
    assert BlockNonce(nonce, i)[8..] == PutBE(n, 4);
  }

  lemma CounterIs(v: nat, i: nat)
    requires v < 0x1_0000_0000
    ensures (v + (i + 1) % 0x1_0000_0000) % 0x1_0000_0000
         == ((v + i % 0x1_0000_0000) % 0x1_0000_0000 + 1) % 0x1_0000_0000
  {
    var a, b := i % 0x1_0000_0000, (i + 1) % 0x1_0000_0000;
    assert b == if a + 1 < 0x1_0000_0000 then a + 1 else 0;
    AddWraps(v, a);
    AddWraps(v, b);
  }

  lemma FirstNonce(nonce: Nonce)
    ensures BlockNonce(nonce, 0) == nonce
  {
    hide GetBE, PutBE;
    Pow256Values();
    GetThenPut(nonce[8..]);
    assert nonce == nonce[..8] + nonce[8..];
  }

  // ---- every byte of a ciphertext

  /** Where block i takes its plaintext, how many bytes a block can hold, and where it puts its sealed bytes. */
  function From(i: nat): nat { if i == 0 then 0 else 32735 + (i - 1) * 32752 }

  function To(i: nat, size: nat): nat { Min(if i == 0 then 32735 else From(i) + 32752, size) }

  function At(i: nat): nat { if i == 0 then 17 else i * 32768 }

  /** What is missing to the next multiple of 16 in the last block, where block 0 also holds the header. */
  function PadTo16(i: nat, size: nat): nat
    requires From(i) < size
  {
    if To(i, size) < size then 0
    else (16 - ((if i == 0 then 17 else 0) + To(i, size) - From(i)) % 16) % 16
  }

  lemma FromIs(i: nat, size: nat)
    ensures From(i) == PlainStart(i) && At(i) == CipherStart(i)
    ensures From(i) < size <==> i < NumBlocks(size)
    ensures From(i) < size ==> From(i) == BlockStart(size, i) && To(i, size) == BlockStart(size, i + 1)
    ensures From(i) < size ==> From(i) < To(i, size) <= size && BlockDataSize(size, i) == To(i, size) - From(i)
    ensures From(i) < size ==> (To(i, size) == size <==> i + 1 == NumBlocks(size))
  {
    if size > 0 {
      LastDataInRange(size);
    }
    if i < NumBlocks(size) {
      BlockDataSizeIs(size, i);
    }
  }

  lemma PadIs(i: nat, size: nat)
    requires From(i) < size
    ensures i < NumBlocks(size) && PaddedLen(size, i) == To(i, size) - From(i) + PadTo16(i, size)
  {
    FromIs(i, size);
    LastDataInRange(size);
  }

  /** The header, byte by byte. */
  lemma HeaderBytes(nonce: Nonce, size: nat)
    ensures var h := Header(nonce, size);
            h[0] == 1 && h[1..13] == nonce && Word(h[13..17]) == size % 0x1_0000_0000
  {
    hide PutBE, Word;
    PutBEIsWord(size % 0x1_0000_0000);
    assert Header(nonce, size)[13..17] == PutBE(size % 0x1_0000_0000, 4);
  }

  /** The ciphertext: the header, and from At(i) on the seal, under block i's nonce, of the plaintext from From(i) to To(i)
      and its padding with zeros; what the last block ends with ends the ciphertext. */
  lemma CiphertextBytes(g: Cipher, nonce: Nonce, p: seq<byte>, i: nat)
    requires g.Valid() && From(i) < |p|
    ensures var c := Ciphertext(g, nonce, p); var lo, hi, pad := From(i), To(i, |p|), PadTo16(i, |p|);
            && |c| >= 17 && c[..17] == Header(nonce, |p|)
            && At(i) + (hi - lo + pad + 16) <= |c|
            && c[At(i)..At(i) + (hi - lo + pad + 16)] == g.seal(BlockNonce(nonce, i), p[lo..hi] + Zeros(pad))
            && (hi == |p| <==> At(i) + (hi - lo + pad + 16) == |c|)
            && (hi < |p| ==> At(i) + (hi - lo + pad + 16) == At(i + 1))
  {
    hide Ciphertext, NumBlocks, BlockNonce, PaddedLen, PaddedSlice, BlockData, From, To, At, PadTo16, SealedFrom, Min;
    hide CiphertextSize;
    FromIs(i, |p|);
    FromIs(i + 1, |p|);
    PadIs(i, |p|);
    SealedFromPosition(g, nonce, p, i);
    SealedStarts(g, nonce, p, i);
    SliceIs(p, i);
    HeadIs(g, nonce, p);
    NextIsWithin(g, nonce, p, i);
    var c, s := Ciphertext(g, nonce, p), g.seal(BlockNonce(nonce, i), PaddedSlice(p, i));
    assert c[At(i)..At(i) + |s|] == SealedFrom(g, nonce, p, i)[..|s|] == s;
  }

  lemma SliceIs(p: seq<byte>, i: nat)
    requires From(i) < |p|
    ensures i < NumBlocks(|p|)
    ensures From(i) <= To(i, |p|) <= |p| && PaddedSlice(p, i) == p[From(i)..To(i, |p|)] + Zeros(PadTo16(i, |p|))
  {
    hide NumBlocks, PaddedLen, From, To, PadTo16;
    FromIs(i, |p|);
    PadIs(i, |p|);
  }

  lemma HeadIs(g: Cipher, nonce: Nonce, p: seq<byte>)
    ensures var c := Ciphertext(g, nonce, p); |c| >= 17 && c[..17] == Header(nonce, |p|)
  {
    hide SealedFrom;
  }

  lemma NextIsWithin(g: Cipher, nonce: Nonce, p: seq<byte>, i: nat)
    requires g.Valid() && |p| > 0 && i < NumBlocks(|p|)
    ensures i + 1 < NumBlocks(|p|) ==> CipherStart(i + 1) < |Ciphertext(g, nonce, p)|
  {
    hide Ciphertext, NumBlocks, PaddedLen, PaddedSlice, CipherStart, SealedFrom;
    SealedFromPosition(g, nonce, p, i);
    if i + 1 < NumBlocks(|p|) {
      SealedFromPosition(g, nonce, p, i + 1);
      SealedStarts(g, nonce, p, i + 1);
    }
  }

  // ---- every outcome of decryption

  /** Block i of c, read as a block of a plaintext of the given size: in range, opened, and long enough. */
  predicate Reads(g: Cipher, c: seq<byte>, nonce: Nonce, size: nat, i: nat) {
    && From(i) < size && InRange(c, i)
    && var m := g.open(BlockNonce(nonce, i), c[At(i)..Min((i + 1) * 32768, |c|)]);
       m.Some? && To(i, size) - From(i) <= |m.value|
  }

  predicate InRange(c: seq<byte>, i: nat) { At(i) <= |c| && At(i) <= (i + 1) * 32768 }

  /** The plaintext that block i reads as. */
  predicate ReadsAs(g: Cipher, c: seq<byte>, nonce: Nonce, p: seq<byte>, i: nat) {
    && Reads(g, c, nonce, |p|, i)
    && var m := g.open(BlockNonce(nonce, i), c[At(i)..Min((i + 1) * 32768, |c|)]).value;
       From(i) <= To(i, |p|) <= |p| && m[..To(i, |p|) - From(i)] == p[From(i)..To(i, |p|)]
  }

  /** Block i is there, and its cipher rejects it. */
  predicate Rejected(g: Cipher, c: seq<byte>, nonce: Nonce, size: nat, i: nat) {
    && From(i) < size && InRange(c, i)
    && g.open(BlockNonce(nonce, i), c[At(i)..Min((i + 1) * 32768, |c|)]) == None
  }

  lemma OpenAtReads(g: Cipher, c: seq<byte>, nonce: Nonce, version: byte, size: nat, i: nat)
    requires |c| >= 17 && c[0] == version && From(i) < size
    ensures OpenAt(g, c, nonce, version, size, i).Ok? <==> Reads(g, c, nonce, size, i)
    ensures OpenAt(g, c, nonce, version, size, i) == Err(NotAuthentic) <==> Rejected(g, c, nonce, size, i)
    ensures OpenAt(g, c, nonce, version, size, i).Err? ==> OpenAt(g, c, nonce, version, size, i) == Err(NotAuthentic)
    ensures Reads(g, c, nonce, size, i) ==>
              var m := g.open(BlockNonce(nonce, i), c[At(i)..Min((i + 1) * 32768, |c|)]).value;
              OpenAt(g, c, nonce, version, size, i).value == m[..To(i, size) - From(i)]
  {
    hide BlockNonce, NumBlocks, PlainStart, BlockStart, BlockDataSize, To, From;
    FromIs(i, size);
    var start, end := i * 32768, Min((i + 1) * 32768, |c|);
    if start <= end {
      assert c[start..end][At(i) - start..] == c[At(i)..end];
      assert i == 0 ==> c[start..end][0] == c[0];
    }
  }

  lemma {:induction false} OpenFromReads(g: Cipher, c: seq<byte>, nonce: Nonce, version: byte, p: seq<byte>, i: nat)
    requires |c| >= 17 && c[0] == version && i <= NumBlocks(|p|)
    ensures BlockStart(|p|, i) <= |p|
    ensures OpenFrom(g, c, nonce, version, |p|, i) == Ok(p[BlockStart(|p|, i)..])
       <==> forall j: nat :: i <= j && From(j) < |p| ==> ReadsAs(g, c, nonce, p, j)
    decreases NumBlocks(|p|) - i
  {
    hide BlockNonce, NumBlocks, PlainStart, OpenAt, Reads, ReadsAs, BlockStart, From, To, BlockDataSize;
    FromIs(i, |p|);
    if i == NumBlocks(|p|) {
      AllRead(|p|, i);
      assert p[|p|..] == [];
    } else {
      OpenAtReads(g, c, nonce, version, |p|, i);
      OpenFromReads(g, c, nonce, version, p, i + 1);
      ReadsOne(g, c, nonce, version, p, i);
      var rest := OpenFrom(g, c, nonce, version, |p|, i + 1);
      SplitPlain(p, From(i), To(i, |p|), OpenAt(g, c, nonce, version, |p|, i), rest);
    }
  }

  lemma AllRead(size: nat, n: nat)
    requires n == NumBlocks(size)
    ensures BlockStart(size, n) == size && forall j: nat :: n <= j ==> From(j) >= size
  {
    if size > 0 {
      LastDataInRange(size);
    }
    forall j: nat | n <= j
      ensures From(j) >= size
    {
      FromIs(j, size);
    }
  }

  lemma ReadsOne(g: Cipher, c: seq<byte>, nonce: Nonce, version: byte, p: seq<byte>, i: nat)
    requires |c| >= 17 && c[0] == version && From(i) < |p|
    ensures From(i) <= To(i, |p|) <= |p|
    ensures ReadsAs(g, c, nonce, p, i) <==>
              OpenAt(g, c, nonce, version, |p|, i) == Ok(p[From(i)..To(i, |p|)])
    ensures OpenAt(g, c, nonce, version, |p|, i).Ok? ==>
              |OpenAt(g, c, nonce, version, |p|, i).value| == To(i, |p|) - From(i)
  {
    hide BlockNonce, NumBlocks, OpenAt, From, To, At;
    FromIs(i, |p|);
    OpenAtReads(g, c, nonce, version, |p|, i);
  }

  lemma SplitPlain(p: seq<byte>, lo: nat, hi: nat, x: Outcome<seq<byte>>, rest: Outcome<seq<byte>>)
    requires lo <= hi <= |p|
    requires x.Ok? ==> |x.value| == hi - lo
    ensures (x.Ok? && Prepend(x.value, rest) == Ok(p[lo..])) <==> (x == Ok(p[lo..hi]) && rest == Ok(p[hi..]))
  {
    if x.Ok? && rest.Ok? {
      var all := x.value + rest.value;
      assert all[..hi - lo] == x.value && all[hi - lo..] == rest.value;
      assert p[lo..][..hi - lo] == p[lo..hi] && p[lo..][hi - lo..] == p[hi..];
      assert p[lo..] == p[lo..hi] + p[hi..];
    }
  }

  predicate HeaderFits(c: seq<byte>, version: byte) { |c| >= 17 && c[0] == version }

  lemma ParsedIs(c: seq<byte>)
    requires |c| >= 17
    ensures ParseHeader(c) == Ok(HeaderFields(c[0], c[1..13], Word(c[13..17])))
  {
    hide GetBE, Word;
    GetBEIsWord(c[13..17]);
  }

  /** Exactly which byte strings decrypt to which plaintext: the header names the version and the plaintext's length, and
      every block reads as its part of the plaintext. */
  lemma DecryptsIff(suite: Suite, key: seq<byte>, c: seq<byte>, info: string, version: byte, p: seq<byte>)
    ensures Decrypted(suite, key, c, info, version) == Ok(p) <==>
              && HeaderFits(c, version) && suite(key, info).Some? && |p| == Word(c[13..17])
              && forall i: nat :: From(i) < |p| ==> ReadsAs(suite(key, info).value, c, c[1..13], p, i)
  {
    hide NumBlocks, ReadsAs, OpenFrom, GetBE, Word, From;
    if HeaderFits(c, version) && suite(key, info).Some? {
      var g := suite(key, info).value;
      ParsedIs(c);
      NothingBefore(|p|);
      OpenFromReads(g, c, c[1..13], version, p, 0);
      assert p[0..] == p;
      LengthIsNamed(g, c, c[1..13], version, Word(c[13..17]));
    } else if |c| >= 17 {
      ParsedIs(c);
    }
  }

  lemma NothingBefore(size: nat)
    ensures BlockStart(size, 0) == 0
  {
  }

  lemma LengthIsNamed(g: Cipher, c: seq<byte>, nonce: Nonce, version: byte, size: nat)
    ensures OpenFrom(g, c, nonce, version, size, 0).Ok? ==> |OpenFrom(g, c, nonce, version, size, 0).value| == size
  {
    OpenFromShort(g, c, nonce, version, size);
  }

  /** Every error: a short header, another version, no cipher, and a first block that does not read because its cipher
      rejects it. Otherwise the first block that does not read is cut off, and the program stops. */
  lemma DecryptErrors(suite: Suite, key: seq<byte>, c: seq<byte>, info: string, version: byte)
    ensures var r := Decrypted(suite, key, c, info, version);
            && (r == Err(HeaderTooShort) <==> |c| < 17)
            && (r == Err(VersionMismatch) <==> |c| >= 17 && c[0] != version)
            && (r == Err(NoCipher) <==> HeaderFits(c, version) && suite(key, info).None?)
            && (r == Err(NotAuthentic) <==>
                  HeaderFits(c, version) && suite(key, info).Some? &&
                  exists k :: RejectedFirst(suite(key, info).value, c, c[1..13], Word(c[13..17]), k))
            && (r.Err? ==> r.error in {HeaderTooShort, VersionMismatch, NoCipher, NotAuthentic})
  {
    hide NumBlocks, OpenFrom, GetBE, Word, From, RejectedFirst;
    if |c| >= 17 {
      ParsedIs(c);
      if HeaderFits(c, version) && suite(key, info).Some? {
        RejectsFrom(suite(key, info).value, c, c[1..13], version, Word(c[13..17]));
      }
    }
  }

  predicate RejectedFirst(g: Cipher, c: seq<byte>, nonce: Nonce, size: nat, k: nat) {
    Rejected(g, c, nonce, size, k) && forall i: nat :: i < k ==> Reads(g, c, nonce, size, i)
  }

  lemma RejectsFrom(g: Cipher, c: seq<byte>, nonce: Nonce, version: byte, size: nat)
    requires HeaderFits(c, version)
    ensures OpenFrom(g, c, nonce, version, size, 0) == Err(NotAuthentic)
       <==> exists k :: RejectedFirst(g, c, nonce, size, k)
    ensures OpenFrom(g, c, nonce, version, size, 0).Err? ==>
              OpenFrom(g, c, nonce, version, size, 0) == Err(NotAuthentic)
  {
    hide NumBlocks, OpenFrom, OpenAt, Reads, Rejected, From;
    OnlyAuthenticationFails(g, c, nonce, version, size, 0);
    if OpenFrom(g, c, nonce, version, size, 0) == Err(NotAuthentic) {
      var k := FindRejected(g, c, nonce, version, size, 0);
    } else if exists k :: RejectedFirst(g, c, nonce, size, k) {
      var k :| RejectedFirst(g, c, nonce, size, k);
      RejectedFails(g, c, nonce, version, size, 0, k);
    }
  }

  lemma {:induction false} FindRejected(g: Cipher, c: seq<byte>, nonce: Nonce, version: byte, size: nat, i: nat)
    returns (k: nat)
    requires HeaderFits(c, version) && i <= NumBlocks(size)
    requires OpenFrom(g, c, nonce, version, size, i) == Err(NotAuthentic)
    requires forall j: nat :: j < i ==> Reads(g, c, nonce, size, j)
    ensures RejectedFirst(g, c, nonce, size, k)
    decreases NumBlocks(size) - i
  {
    hide NumBlocks, OpenAt, Reads, Rejected, From;
    FromIs(i, size);
    OpenAtReads(g, c, nonce, version, size, i);
    if OpenAt(g, c, nonce, version, size, i).Ok? {
      k := FindRejected(g, c, nonce, version, size, i + 1);
    } else {
      k := i;
    }
  }

  lemma {:induction false} RejectedFails(g: Cipher, c: seq<byte>, nonce: Nonce, version: byte, size: nat, i: nat, k: nat)
    requires HeaderFits(c, version) && i <= k && i <= NumBlocks(size) && RejectedFirst(g, c, nonce, size, k)
    ensures OpenFrom(g, c, nonce, version, size, i) == Err(NotAuthentic)
    decreases k - i
  {
    hide NumBlocks, OpenAt, Reads, From;
    FromIs(i, size);
    FromIs(k, size);
    OpenAtReads(g, c, nonce, version, size, if i < k then i else k);
    if i < k {
      RejectedFails(g, c, nonce, version, size, i + 1, k);
    }
  }
}
