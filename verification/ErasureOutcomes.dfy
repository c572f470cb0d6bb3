/** Erasure coding in bytes and cases: what each shard holds, what wrapping writes, and every outcome of extracting and
    unwrapping, in terms of sizes, parity and the bytes themselves. */
module ErasureOutcomes {
  import opened Base
  import opened Pieces
  import opened ErasureCode

  // ---- bytes

  /** Byte b of data shard i is byte i * size + b of the data, or zero behind its end; the other shards are the
      coder's parity. Nothing can be encoded from no data. */
  lemma ShardBytes(c: Coder, data: Bytes, i: nat, b: nat)
    requires c.Valid() && data != [] && b < CeilDiv(|data|, c.k)
    ensures EncodedRaw(c, data).Ok? && |EncodedRaw(c, data).value| == c.k + c.m
    ensures var shards := EncodedRaw(c, data).value; var at := i * CeilDiv(|data|, c.k) + b;
            && (i < c.k ==> |shards[i]| == CeilDiv(|data|, c.k) && at >= 0
                            && shards[i][b] == if at < |data| then data[at] else 0)
            && shards[c.k..] == c.parity(shards[..c.k])
  {
    hide Uniform, CeilDiv;
    SplitShape(c, data);
    var d, size := Split(c, data).value, CeilDiv(|data|, c.k);
    CodewordShape(c, d);
    ShardSizes(c, d);
    var shards := EncodedRaw(c, data).value;
    if i < c.k {
      assert shards[i] == d[i];
      InFlattened(d, size, i, b);
    }
  }

  lemma ShardSizes(c: Coder, d: seq<Bytes>)
    requires c.Valid() && Uniform(d, c.k)
    ensures |d| == c.k && forall s :: s in d ==> |s| == |d[0]|
    ensures |c.parity(d)| == c.m
  {
  }

  lemma {:induction false} InFlattened(ps: seq<Bytes>, size: nat, i: nat, b: nat)
    requires i < |ps| && b < size && forall p :: p in ps ==> |p| == size
    ensures 0 <= i * size + b < |Flatten(ps)| && Flatten(ps)[i * size + b] == ps[i][b]
  {
    assert ps[0] in ps && forall p :: p in ps[1..] ==> p in ps;
    if i == 0 {
      assert i * size == 0;
    } else {
      InFlattened(ps[1..], size, i - 1, b);
      assert i * size == (i - 1) * size + size;
    }
  }

  lemma NothingToEncode(c: Coder)
    requires c.k > 0
    ensures EncodedRaw(c, []) == Err(ShortData)
  {
  }

  /** The wrapping, byte by byte: the length in eight bytes, the most significant first, the data, DE AD BE EF. */
  lemma WrappedBytes(d: Bytes)
    requires |d| < 0x8000_0000_0000_0000
    ensures var w := Wrapped(d);
            && |w| == |d| + 12
            && Word(w[..4]) * 0x1_0000_0000 + Word(w[4..8]) == |d|
            && w[8..8 + |d|] == d && w[8 + |d|..] == [222, 173, 190, 239]
  {
    hide PutBE, GetBE, Word, Pow256;
    var w := Wrapped(d);
    var prefix := PutBE(|d|, 8);
    assert |d| % 0x1_0000_0000_0000_0000 == |d|;
    Pow256Values();
    PutThenGet(|d|, 8);
    GetBEIsTwoWords(prefix);
    assert w[..8] == prefix && w[..4] == prefix[..4] && w[4..8] == prefix[4..];
  }

  /** The size an unwrapped buffer names. */
  function Named(buf: Bytes): nat
    requires |buf| >= 8
  {
    Word(buf[..4]) * 0x1_0000_0000 + Word(buf[4..8])
  }

  lemma NamedIs(buf: Bytes)
    requires |buf| >= 8
    ensures GetBE(buf[..8]) == Named(buf) < 0x1_0000_0000_0000_0000
  {
    hide GetBE, Word;
    GetBEIsTwoWords(buf[..8]);
    assert buf[..8][..4] == buf[..4] && buf[..8][4..] == buf[4..8];
  }

  /** When unwrapping fails: too short, for the wrapping or for the size that is named, or without the suffix. */
  lemma UnwrapFails(buf: Bytes)
    requires |buf| < 0x8000_0000_0000_0000
    ensures UnwrapData(buf) == Err(ShortBuffer) <==>
              || |buf| < 12 || (Named(buf) < 0xFFFF_FFFF_FFFF_FFF4 && Named(buf) + 12 > |buf|)
    ensures |buf| >= 12 && Named(buf) + 12 <= |buf| ==>
              (UnwrapData(buf) == Err(MissingSuffix) <==> buf[8 + Named(buf)..12 + Named(buf)] != [222, 173, 190, 239])
    ensures |buf| >= 12 && Named(buf) >= 0xFFFF_FFFF_FFFF_FFF8 ==> UnwrapData(buf) == Err(MissingSuffix)
    ensures UnwrapData(buf).Err? ==> UnwrapData(buf).error in {ShortBuffer, MissingSuffix}
  {
    hide GetBE, ToInt64, Word, Named;
    if |buf| >= 12 {
      NamedIs(buf);
      WhereUnwrapLooks(Named(buf));
      NotInPrefix(buf);
    }
  }

  // ---- outcomes of extraction

  /** Some shard is there, and those that are there have one size. */
  ghost predicate OneSize(shards: seq<Bytes>) {
    && (exists s :: s in shards && s != [])
    && (forall s, t :: s in shards && t in shards && s != [] && t != [] ==> |s| == |t|)
  }

  /** What the data shards of a whole codeword hold, and the error for shards that are none. */
  function Checked(c: Coder, whole: seq<Bytes>): Outcome<Bytes>
    requires c.k <= |whole|
  {
    if c.parity(whole[..c.k]) == whole[c.k..] then Ok(Flatten(whole[..c.k])) else Err(Corrupted)
  }

  /** Every outcome: the number of shards, no shard at all, two sizes, too few shards; and otherwise the shards, or
      what the library restores of them, checked against the parity. */
  lemma ExtractOutcomes(c: Coder, shards: seq<Bytes>, size: int)
    requires c.Valid()
    ensures var r := ExtractedRaw(c, shards, size);
            if |shards| != c.k + c.m then r == Err(ShardCount)
            else if forall s :: s in shards ==> s == [] then r == Err(ShardNoData)
            else if !OneSize(shards) then r == Err(ShardSize)
            else if Missing(shards) > c.m then r == Err(TooFewShards)
            else if [] !in shards then r == Checked(c, shards)
            else r == if Uniform(c.restore(shards), c.k + c.m) then Checked(c, c.restore(shards)) else Err(ShardSize)
  {
    hide Verify, Missing, Flatten, Reconstruct, Uniform, OneSize;
    VerifyMeans(c, shards);
    VerifyMeans(c, c.restore(shards));
    NoneMissing(shards);
    if |shards| == c.k + c.m {
      SizesAgree(c, shards);
      if !(forall s :: s in shards ==> s == []) {
        ReconstructMeans(c, shards);
        StillSome(c, shards);
      }
    }
    JoinsAll(c, shards);
    JoinsAll(c, c.restore(shards));
  }

  lemma SizesAgree(c: Coder, shards: seq<Bytes>)
    requires c.Valid() && |shards| == c.k + c.m
    ensures Uniform(shards, c.k + c.m) <==> OneSize(shards) && [] !in shards
    ensures (forall s :: s in shards ==> s == []) ==> !OneSize(shards)
  {
    assert shards[0] in shards;
    if OneSize(shards) && [] !in shards {
      assert shards[0] != [];
    }
  }

  lemma StillSome(c: Coder, shards: seq<Bytes>)
    requires c.Valid() && !(forall s :: s in shards ==> s == [])
    ensures |c.restore(shards)| == |shards| && !(forall s :: s in c.restore(shards) ==> s == [])
  {
    var i :| 0 <= i < |shards| && shards[i] != [];
    assert c.restore(shards)[i] == shards[i] && c.restore(shards)[i] in c.restore(shards);
  }

  lemma ReconstructMeans(c: Coder, shards: seq<Bytes>)
    requires c.Valid() && |shards| == c.k + c.m
    requires !(forall s :: s in shards ==> s == [])
    ensures !OneSize(shards) ==> Reconstruct(c, shards) == Err(ShardSize)
    ensures OneSize(shards) && Missing(shards) > c.m ==> Reconstruct(c, shards) == Err(TooFewShards)
    ensures OneSize(shards) && 0 < Missing(shards) <= c.m ==> Reconstruct(c, shards) == Ok(c.restore(shards))
  {
    hide PresentSize, Missing;
    PresentSizeIs(shards);
  }

  lemma JoinsAll(c: Coder, whole: seq<Bytes>)
    requires c.Valid()
    ensures Uniform(whole, c.k + c.m) ==> Join(c, whole, c.k * |whole[0]|) == Ok(Flatten(whole[..c.k]))
  {
    hide Flatten;
    if Uniform(whole, c.k + c.m) {
      assert forall s :: s in whole[..c.k] ==> s in whole;
      FlattenLength(whole[..c.k], |whole[0]|);
      var all := Flatten(whole[..c.k]);
      assert all[..|all|] == all;
    }
  }

  /** After an extraction that succeeds on any shards, the data is that of a codeword which has every shard given; so a
      wrong data shard among shards that are all there never goes unnoticed unless its parity is wrong to match. */
  lemma ExtractedIsCodeword(c: Coder, shards: seq<Bytes>, size: int) returns (whole: seq<Bytes>)
    requires c.Valid() && ExtractedRaw(c, shards, size).Ok?
    ensures Restored(c, shards, whole) && ExtractedRaw(c, shards, size) == Ok(Flatten(whole[..c.k]))
  {
    hide Verify, Uniform, Restored, Flatten;
    whole := Recovered(c, shards).value;
    RecoveredIsRestored(c, shards);
    RestoredSizes(c, shards, whole);
    JoinsAll(c, whole);
  }

  lemma RestoredSizes(c: Coder, shards: seq<Bytes>, whole: seq<Bytes>)
    requires c.Valid() && Restored(c, shards, whole)
    ensures Uniform(whole, c.k + c.m)
  {
  }
}
