/** Erasure coding: the length-prefixed wrapping, and encoding and recovering through an opaque
    Reed-Solomon coder known only by its contract. A shard that is missing is empty. */
module ErasureCode {
  import opened Base
  import opened Pieces

  // ---- wrapData and unwrapData

  const PREFIX := 8
  const MAGIC: Bytes := [0xDE, 0xAD, 0xBE, 0xEF]
  const WRAP_OVERHEAD := 12

  function Wrapped(data: Bytes): (w: Bytes)
    ensures |w| == |data| + WRAP_OVERHEAD
  {
    PutBE(|data| % 0x1_0000_0000_0000_0000, 8) + data + MAGIC
  }

  /** wrapData: in the caller's slice when its capacity suffices, else in a new one. Both ways write the same bytes. */
  method WrapData(buf: array<byte>, len: nat) returns (out: array<byte>, n: nat)
    requires len <= buf.Length
    modifies buf
    ensures n == len + WRAP_OVERHEAD <= out.Length
    ensures out[..n] == Wrapped(old(buf[..len]))
    ensures if buf.Length >= len + WRAP_OVERHEAD then out == buf && buf[n..] == old(buf[n..])
            else fresh(out) && out.Length == n && buf[..] == old(buf[..])
  {
    n := len + WRAP_OVERHEAD;
    ghost var data := buf[..len];
    ghost var before := buf[..];
    if buf.Length >= n {
      out := buf;
      Move(out, PREFIX, 0, len);
    } else {
      out := new byte[n];
      Write(out, PREFIX, buf[..len]);
    }
    ghost var shifted := out[..];
    assert shifted[PREFIX..PREFIX + len] == data;
    var prefix := PutBE(len % 0x1_0000_0000_0000_0000, 8);
    Write(out, 0, prefix);
    Write(out, PREFIX + len, MAGIC);
    WrapParts(shifted, prefix, len);
    assert out[..n] == out[..][..n];
    assert out[n..] == out[..][n..] == shifted[n..];
  }

  lemma WrapParts(shifted: Bytes, prefix: Bytes, len: nat)
    requires |prefix| == PREFIX && len + WRAP_OVERHEAD <= |shifted|
    ensures var a := Splice(Splice(shifted, 0, prefix), PREFIX + len, MAGIC);
            a == prefix + shifted[PREFIX..PREFIX + len] + MAGIC + shifted[len + WRAP_OVERHEAD..]
  {
  }

  /** Go's conversion of a 64-bit pattern to int, and int addition: both wrap. */
  function ToInt64(x: int): int {
    var r := x % 0x1_0000_0000_0000_0000;
    if r < 0x8000_0000_0000_0000 then r else r - 0x1_0000_0000_0000_0000
  }

  function UnwrapData(buf: Bytes): Outcome<Bytes> {
    if |buf| < WRAP_OVERHEAD then Err(ShortBuffer)
    else
      var dataEnd := ToInt64(PREFIX + ToInt64(GetBE(buf[..PREFIX])));
      var n := ToInt64(dataEnd + |MAGIC|);
      if n > |buf| || n < 0 then Err(ShortBuffer)
      else if !(0 <= dataEnd <= n) then Panic
      else if buf[dataEnd..n] != MAGIC then Err(MissingSuffix)
      else if dataEnd < PREFIX then Panic
      else Ok(buf[PREFIX..dataEnd])
  }

  /** Where unwrapData looks, by the size read from the prefix: behind the payload, at a negative end,
      or, for the twelve largest sizes, inside the first twelve bytes. */
  lemma WhereUnwrapLooks(size: nat)
    requires size < 0x1_0000_0000_0000_0000
    ensures var dataEnd := ToInt64(PREFIX + ToInt64(size)); var n := ToInt64(dataEnd + |MAGIC|);
            if size < 0x7FFF_FFFF_FFFF_FFF4 then dataEnd == PREFIX + size && n == WRAP_OVERHEAD + size
            else if size < 0xFFFF_FFFF_FFFF_FFF4 then n < 0
            else dataEnd == size - 0xFFFF_FFFF_FFFF_FFF8 && n == dataEnd + 4
  {
    assert |MAGIC| == 4;
  }

  lemma PrefixSize(buf: Bytes)
    requires |buf| >= WRAP_OVERHEAD
    ensures GetBE(buf[..PREFIX]) < 0x1_0000_0000_0000_0000
    ensures PutBE(GetBE(buf[..PREFIX]), PREFIX) == buf[..PREFIX]
  {
    Pow256Values();
    GetThenPut(buf[..PREFIX]);
  }

  /** unwrapData succeeds with d exactly on wrapData(d) followed by any tail. (A Go slice is shorter than 2^63 bytes.) */
  lemma UnwrapsIff(buf: Bytes, d: Bytes)
    requires |buf| < 0x8000_0000_0000_0000
    ensures UnwrapData(buf) == Ok(d) <==> Wrapped(d) <= buf
  {
    if Wrapped(d) <= buf {
      UnwrapsWrapped(buf, d);
    } else if UnwrapData(buf) == Ok(d) {
      UnwrappedIsWrapped(buf);
    }
  }

  lemma UnwrapsWrapped(buf: Bytes, d: Bytes)
    requires |buf| < 0x8000_0000_0000_0000 && Wrapped(d) <= buf
    ensures UnwrapData(buf) == Ok(d)
  {
    var w := Wrapped(d);
    assert buf[..|w|] == w && |d| % 0x1_0000_0000_0000_0000 == |d|;
    Pow256Values();
    hide ToInt64, PutBE, GetBE, Pow256;
    var k := PREFIX + |d|;
    assert buf[..PREFIX] == w[..PREFIX] == PutBE(|d|, 8);
    assert buf[PREFIX..k] == w[PREFIX..k] == d;
    assert buf[k..k + 4] == w[k..k + 4] == MAGIC;
    PutThenGet(|d|, 8);
    WhereUnwrapLooks(|d|);
  }

  lemma ThreeParts(buf: Bytes, a: nat, b: nat, c: nat)
    requires a <= b <= c <= |buf|
    ensures buf[..c] == buf[..a] + buf[a..b] + buf[b..c]
  {
  }

  lemma WrappedPrefix(buf: Bytes, size: nat)
    requires size < 0x1_0000_0000_0000_0000 && PREFIX + size + 4 <= |buf|
    requires PutBE(size, PREFIX) == buf[..PREFIX] && buf[PREFIX + size..PREFIX + size + 4] == MAGIC
    ensures Wrapped(buf[PREFIX..PREFIX + size]) <= buf
  {
    hide PutBE;
    var k := PREFIX + size;
    ThreeParts(buf, PREFIX, k, k + 4);
    assert size % 0x1_0000_0000_0000_0000 == size;
    assert Wrapped(buf[PREFIX..k]) == buf[..k + 4];
  }

  lemma UnwrappedIsWrapped(buf: Bytes)
    requires |buf| < 0x8000_0000_0000_0000 && UnwrapData(buf).Ok?
    ensures Wrapped(UnwrapData(buf).value) <= buf
  {
    hide PutBE, GetBE, ToInt64, Pow256, Wrapped;
    PrefixSize(buf);
    var size := GetBE(buf[..PREFIX]);
    WhereUnwrapLooks(size);
    NotInPrefix(buf);
    assert UnwrapData(buf).value == buf[PREFIX..PREFIX + size];
    WrappedPrefix(buf, size);
  }

  /** A prefix as large as its own bytes all being F8 or more leaves no room for the suffix inside it. */
  lemma NotInPrefix(buf: Bytes)
    requires |buf| >= WRAP_OVERHEAD
    ensures var i := GetBE(buf[..PREFIX]) - 0xFFFF_FFFF_FFFF_FFF8;
            0 <= i < PREFIX ==> buf[i..i + 4] != MAGIC
  {
    Pow256Values();
    var i := GetBE(buf[..PREFIX]) - 0xFFFF_FFFF_FFFF_FFF8;
    if 0 <= i < PREFIX {
      HighBytes(buf[..PREFIX], 8);
      assert buf[i..i + 4][0] == buf[..PREFIX][i] && MAGIC[0] == 0xDE;
    }
  }

  /** The only prefixes that make unwrapData stop with an out-of-range slice are the four from 2^64 - 12 to
      2^64 - 9: they convert to negative sizes that pass the length check. In particular no prefix below 2^63 does. */
  lemma UnwrapPanicsIff(buf: Bytes)
    requires |buf| < 0x8000_0000_0000_0000
    ensures UnwrapData(buf).Panic?
       <==> |buf| >= WRAP_OVERHEAD && 0xFFFF_FFFF_FFFF_FFF4 <= GetBE(buf[..PREFIX]) <= 0xFFFF_FFFF_FFFF_FFF7
  {
    if |buf| >= WRAP_OVERHEAD {
      PrefixSize(buf);
      hide GetBE, ToInt64;
      WhereUnwrapLooks(GetBE(buf[..PREFIX]));
      NotInPrefix(buf);
    }
  }

  lemma {:induction false} HighBytes(p: Bytes, w: nat)
    requires |p| == w && GetBE(p) >= Pow256(w) - 8
    ensures forall i :: 0 <= i < w ==> p[i] >= 0xF8
  {
    if w == 0 {
    } else {
      var q := p[..w - 1];
      GetThenPut(q);
      HighBytes(q, w - 1);
      assert forall i :: 0 <= i < w - 1 ==> p[i] == q[i];
    }
  }

  // ---- the Reed-Solomon coder

  /** k data shards, m parity shards, and the library's two computations on shards of one size. */
  datatype Coder = Coder(k: nat, m: nat, parity: seq<Bytes> -> seq<Bytes>, restore: seq<Bytes> -> seq<Bytes>)
  {
    function Total(): nat { k + m }

    function Codeword(data: seq<Bytes>): seq<Bytes> { data + parity(data) }

    /** The contract of a maximum-distance-separable code with at most 256 shards: parity shards are as long as
        the data shards, any codeword is restored from any k of its shards, and restoring only fills in what is
        missing. */
    ghost predicate Valid() {
      && k > 0 && m > 0 && k + m <= 256
      && (forall data :: Uniform(data, k) ==> |parity(data)| == m)
      && (forall data, p :: Uniform(data, k) && p in parity(data) ==> |p| == |data[0]|)
      && (forall data, shards :: Uniform(data, k) && Damaged(Codeword(data), shards) && Missing(shards) <= m ==>
            restore(shards) == Codeword(data))
      && (forall shards :: |restore(shards)| == |shards|)
      && (forall shards, i :: 0 <= i < |shards| && shards[i] != [] ==> restore(shards)[i] == shards[i])
    }
  }

  /** n shards of one non-zero size. */
  ghost predicate Uniform(shards: seq<Bytes>, n: nat) {
    |shards| == n > 0 && |shards[0]| > 0 && forall s :: s in shards ==> |s| == |shards[0]|
  }

  /** `shards` is `whole` with some shards missing. */
  ghost predicate Damaged(whole: seq<Bytes>, shards: seq<Bytes>) {
    |shards| == |whole| && forall i :: 0 <= i < |whole| ==> shards[i] == whole[i] || shards[i] == []
  }

  /** How many shards are missing. */
  function Missing(shards: seq<Bytes>): nat {
    if shards == [] then 0 else (if shards[0] == [] then 1 else 0) + Missing(shards[1..])
  }

  /** The size of the first shard that is present, 0 if none is. */
  function PresentSize(shards: seq<Bytes>): nat {
    if shards == [] then 0 else if shards[0] != [] then |shards[0]| else PresentSize(shards[1..])
  }

  /** The first shard that is present, nothing if none is. */
  function FirstPresent(shards: seq<Bytes>): Bytes {
    if shards == [] then [] else if shards[0] != [] then shards[0] else FirstPresent(shards[1..])
  }

  /** The code that repeats its one data shard m times. */
  function Repetition(m: nat): Coder {
    Coder(1, m,
          data => if data == [] then [] else seq(m, _ => data[0]),
          shards => seq(|shards|, i requires 0 <= i < |shards| =>
                                    if shards[i] == [] then FirstPresent(shards) else shards[i]))
  }

  lemma {:induction false} PresentAmongEqual(shards: seq<Bytes>, x: Bytes)
    requires forall s :: s in shards ==> s == x || s == []
    ensures FirstPresent(shards) == x || Missing(shards) == |shards|
  {
    if shards == [] {
    } else {
      assert shards[0] in shards && forall s :: s in shards[1..] ==> s in shards;
      PresentAmongEqual(shards[1..], x);
    }
  }

  lemma RepetitionRestores(m: nat, data: seq<Bytes>, shards: seq<Bytes>)
    requires 0 < m <= 255 && Uniform(data, 1)
    requires Damaged(Repetition(m).Codeword(data), shards) && Missing(shards) <= m
    ensures Repetition(m).restore(shards) == Repetition(m).Codeword(data)
  {
    hide Missing, FirstPresent;
    var w := Repetition(m).Codeword(data);
    forall s | s in shards
      ensures s == data[0] || s == []
    {
      var i :| 0 <= i < |shards| && shards[i] == s;
      assert w[i] == data[0];
    }
    PresentAmongEqual(shards, data[0]);
  }

  /** The assumptions about the coder are consistent: some coder meets them. */
  lemma RepetitionIsValid(m: nat)
    requires 0 < m <= 255
    ensures Repetition(m).Valid()
  {
    hide Missing, FirstPresent, Damaged;
    var c := Repetition(m);
    forall data, shards | Uniform(data, 1) && Damaged(c.Codeword(data), shards) && Missing(shards) <= m
      ensures c.restore(shards) == c.Codeword(data)
    {
      RepetitionRestores(m, data, shards);
    }
  }

  function Split(c: Coder, data: Bytes): Outcome<seq<Bytes>>
    requires c.k > 0
  {
    if data == [] then Err(ShortData) else
      var size := CeilDiv(|data|, c.k);
      CeilDivBounds(|data|, c.k);
      SizePositive(|data|, c.k);
      Ok(Cut(data + Zeros(c.k * size - |data|), size))
  }

  lemma SizePositive(a: nat, b: nat)
    requires a > 0 && b > 0
    ensures CeilDiv(a, b) > 0
  {
  }

  function Verify(c: Coder, shards: seq<Bytes>): Outcome<bool> {
    if |shards| != c.Total() then Err(ShardCount)
    else if PresentSize(shards) == 0 then Err(ShardNoData)
    else if exists s :: s in shards && |s| != PresentSize(shards) then Err(ShardSize)
    else Ok(c.parity(shards[..c.k]) == shards[c.k..])
  }

  function Reconstruct(c: Coder, shards: seq<Bytes>): Outcome<seq<Bytes>> {
    if |shards| != c.Total() then Err(ShardCount)
    else if PresentSize(shards) == 0 then Err(ShardNoData)
    else if exists s :: s in shards && s != [] && |s| != PresentSize(shards) then Err(ShardSize)
    else if Missing(shards) == 0 then Ok(shards)
    else if c.Total() - Missing(shards) < c.k then Err(TooFewShards)
    else Ok(c.restore(shards))
  }

  /** Join writes the first `size` bytes of the data shards. */
  function Join(c: Coder, shards: seq<Bytes>, size: nat): Outcome<Bytes>
    requires |shards| >= c.k
  {
    var all := Flatten(shards[..c.k]);
    if |all| < size then Err(ShortData) else Ok(all[..size])
  }

  // ---- Encode, EncodeRaw, ExtractData, ExtractDataRaw

  /** EncodeRaw: the shards of `data`, data shards first. */
  function EncodedRaw(c: Coder, data: Bytes): Outcome<seq<Bytes>>
    requires c.k > 0
  {
    match Split(c, data)
    case Panic => Panic
    case Err(e) => Err(e)
    case Ok(shards) => Ok(c.Codeword(shards))
  }

  /** The shards that extraction works on: those given if they are consistent, else those reconstructed. */
  function Recovered(c: Coder, shards: seq<Bytes>): Outcome<seq<Bytes>> {
    match Verify(c, shards)
    case Ok(true) => Ok(shards)
    case Ok(false) => Err(Corrupted)
    case Panic => Panic
    case Err(e) =>
      if e != ShardSize then Err(e) else
        match Reconstruct(c, shards)
        case Panic => Panic
        case Err(f) => Err(f)
        case Ok(whole) =>
          match Verify(c, whole)
          case Ok(true) => Ok(whole)
          case Ok(false) => Err(Corrupted)
          case Panic => Panic
          case Err(f) => Err(f)
  }

  /** ExtractDataRaw. The size it is given is not used: all of the data shards are returned. */
  function ExtractedRaw(c: Coder, shards: seq<Bytes>, originalSize: int): Outcome<Bytes>
    requires c.Total() > 0
  {
    match Recovered(c, shards)
    case Panic => Panic
    case Err(e) => Err(e)
    case Ok(whole) => Join(c, whole, c.k * |whole[0]|)
  }

  function Extracted(c: Coder, shards: seq<Bytes>): Outcome<Bytes>
    requires c.Total() > 0
  {
    match ExtractedRaw(c, shards, 0)
    case Panic => Panic
    case Err(e) => Err(e)
    case Ok(buf) => UnwrapData(buf)
  }

  /** A whole codeword that agrees with every shard that was given. */
  ghost predicate Restored(c: Coder, given: seq<Bytes>, whole: seq<Bytes>)
    requires c.k > 0
  {
    && Uniform(whole, c.Total()) && |given| == |whole|
    && c.parity(whole[..c.k]) == whole[c.k..]
    && forall i :: 0 <= i < |given| && given[i] != [] ==> whole[i] == given[i]
  }

  lemma {:induction false} PresentSizeIs(shards: seq<Bytes>)
    ensures PresentSize(shards) == 0 <==> forall s :: s in shards ==> s == []
    ensures PresentSize(shards) > 0 ==> exists s :: s in shards && |s| == PresentSize(shards)
  {
    if shards == [] {
    } else {
      assert shards[0] in shards && forall s :: s in shards ==> s == shards[0] || s in shards[1..];
      assert forall s :: s in shards[1..] ==> s in shards;
      PresentSizeIs(shards[1..]);
    }
  }

  /** What verification says of any shards, in terms of sizes and parity. */
  lemma VerifyMeans(c: Coder, shards: seq<Bytes>)
    requires c.k > 0
    ensures Verify(c, shards).Ok? <==> Uniform(shards, c.Total())
    ensures Uniform(shards, c.Total()) ==> Verify(c, shards) == Ok(c.parity(shards[..c.k]) == shards[c.k..])
    ensures |shards| != c.Total() ==> Verify(c, shards) == Err(ShardCount)
    ensures |shards| == c.Total() && (forall s :: s in shards ==> s == []) ==> Verify(c, shards) == Err(ShardNoData)
    ensures |shards| == c.Total() && !(forall s :: s in shards ==> s == []) && !Uniform(shards, c.Total()) ==>
              Verify(c, shards) == Err(ShardSize)
  {
    PresentSizeIs(shards);
    if |shards| == c.Total() {
      assert shards[0] in shards;
    }
  }

  lemma RecoveredIsRestored(c: Coder, shards: seq<Bytes>)
    requires c.Valid()
    ensures Recovered(c, shards).Ok? ==> Restored(c, shards, Recovered(c, shards).value)
  {
    hide Verify, Missing, PresentSize, Uniform;
    VerifyMeans(c, shards);
    VerifyMeans(c, c.restore(shards));
    NoneMissing(shards);
  }

  /** All shards are there, and the parity shards are not those of the data shards. */
  ghost predicate IsCorrupted(c: Coder, shards: seq<Bytes>)
    requires c.k > 0
  {
    Uniform(shards, c.Total()) && c.parity(shards[..c.k]) != shards[c.k..]
  }

  lemma RejectsCorrupted(c: Coder, shards: seq<Bytes>)
    requires c.Valid()
    ensures IsCorrupted(c, shards) ==> Recovered(c, shards) == Err(Corrupted)
    ensures IsCorrupted(c, shards) ==> forall size :: ExtractedRaw(c, shards, size) == Err(Corrupted)
    ensures IsCorrupted(c, shards) ==> Extracted(c, shards) == Err(Corrupted)
  {
    hide Verify;
    VerifyMeans(c, shards);
  }

  lemma SplitShape(c: Coder, data: Bytes)
    requires c.k > 0 && data != []
    ensures Split(c, data).Ok?
    ensures var shards := Split(c, data).value; var size := CeilDiv(|data|, c.k);
            && Uniform(shards, c.k) && |shards[0]| == size
            && c.k * size >= |data| && Flatten(shards) == data + Zeros(c.k * size - |data|)
  {
    var size := CeilDiv(|data|, c.k);
    CeilDivBounds(|data|, c.k);
    SizePositive(|data|, c.k);
    var padded := data + Zeros(c.k * size - |data|);
    CutExact(padded, size, c.k);
    FlattenCut(padded, size);
  }

  lemma {:induction false} PresentSizeOfDamaged(whole: seq<Bytes>, shards: seq<Bytes>, size: nat)
    requires size > 0 && Damaged(whole, shards) && forall s :: s in whole ==> |s| == size
    ensures PresentSize(shards) == size || Missing(shards) == |shards|
  {
    if shards == [] {
    } else {
      assert whole[0] in whole;
      if shards[0] == [] {
        assert forall i :: 0 <= i < |whole| - 1 ==> shards[1..][i] == shards[i + 1] && whole[1..][i] == whole[i + 1];
        PresentSizeOfDamaged(whole[1..], shards[1..], size);
      }
    }
  }

  lemma {:induction false} NoneMissing(shards: seq<Bytes>)
    ensures Missing(shards) == 0 <==> [] !in shards
    ensures Missing(shards) <= |shards|
  {
    if shards == [] {
    } else {
      NoneMissing(shards[1..]);
      assert shards == [shards[0]] + shards[1..];
    }
  }

  lemma CodewordShape(c: Coder, data: seq<Bytes>)
    requires c.Valid() && Uniform(data, c.k)
    ensures Uniform(c.Codeword(data), c.Total())
    ensures c.Codeword(data)[..c.k] == data && c.Codeword(data)[c.k..] == c.parity(data)
    ensures c.Codeword(data)[0] == data[0]
    ensures Verify(c, c.Codeword(data)) == Ok(true)
  {
  }

  /** Any at most m shards of a codeword may be missing. */
  lemma RecoversCodeword(c: Coder, data: seq<Bytes>, shards: seq<Bytes>)
    requires c.Valid() && Uniform(data, c.k)
    requires Damaged(c.Codeword(data), shards) && Missing(shards) <= c.m
    ensures Recovered(c, shards) == Ok(c.Codeword(data))
  {
    var w, size := c.Codeword(data), |data[0]|;
    CodewordShape(c, data);
    PresentSizeOfDamaged(w, shards, size);
    NoneMissing(shards);
    assert PresentSize(shards) == size;
    var none: Bytes := [];
    assert none in shards ==> |none| != size;
    forall i | 0 <= i < |w|
      ensures |w[i]| == size
    {
      assert w[i] in w;
    }
    if Missing(shards) == 0 {
      forall i | 0 <= i < |w|
        ensures shards[i] == w[i]
      {
        assert shards[i] in shards;
      }
      assert shards == w;
    }
  }

  /** ExtractDataRaw on what EncodeRaw produced, with at most m shards missing: the data and its padding,
      which is the data itself exactly when k divides its length. */
  lemma ExtractsRaw(c: Coder, data: Bytes, shards: seq<Bytes>, originalSize: int)
    requires c.Valid() && data != []
    requires Damaged(EncodedRaw(c, data).value, shards) && Missing(shards) <= c.m
    ensures var pad := c.k * CeilDiv(|data|, c.k) - |data|;
            && 0 <= pad < c.k
            && ExtractedRaw(c, shards, originalSize) == Ok(data + Zeros(pad))
    ensures ExtractedRaw(c, shards, originalSize) == Ok(data) <==> |data| % c.k == 0
  {
    SplitShape(c, data);
    var d := Split(c, data).value;
    var size := CeilDiv(|data|, c.k);
    CeilDivBounds(|data|, c.k);
    RecoversCodeword(c, d, shards);
    CodewordShape(c, d);
    var all := Flatten(d);
    assert all[..c.k * size] == all;
    var pad := c.k * size - |data|;
    assert pad == 0 ==> data + Zeros(pad) == data;
    assert |data + Zeros(pad)| == |data| + pad;
    DividesIff(|data|, c.k, size);
  }

  lemma DividesIff(a: nat, k: nat, size: nat)
    requires k > 0 && 0 <= k * size - a < k
    ensures a % k == 0 <==> k * size == a
  {
    var z := k * size;
    DivIs(z, k, size);
    DivIs(z, k, z / k);
    if a % k == 0 {
      var q := a / k;
      assert a == q * k;
      DivIs(z, k, q);
    }
  }

  /** ExtractData after Encode gives the data back, whatever padding was added and whichever at most m
      shards are missing. */
  lemma ExtractsEncoded(c: Coder, data: Bytes, shards: seq<Bytes>)
    requires c.Valid() && |data| < 0x4000_0000_0000_0000
    requires Damaged(EncodedRaw(c, Wrapped(data)).value, shards) && Missing(shards) <= c.m
    ensures Extracted(c, shards) == Ok(data)
  {
    var w := Wrapped(data);
    ExtractsRaw(c, w, shards, 0);
    var pad := c.k * CeilDiv(|w|, c.k) - |w|;
    UnwrapsIff(w + Zeros(pad), data);
  }

  /** The loop that lays the shards one after another. */
  method Concatenate(shards: seq<Bytes>) returns (result: Bytes)
    ensures result == Flatten(shards)
  {
    result := [];
    for i := 0 to |shards|
      invariant result == Flatten(shards[..i])
    {
      FlattenSnoc(shards[..i], shards[i]);
      assert shards[..i + 1] == shards[..i] + [shards[i]];
      result := result + shards[i];
    }
    assert shards[..|shards|] == shards;
  }

  /** Encode: wraps the caller's data, in the caller's buffer if it has room, splits it, adds parity and lays the
      shards one after another. */
  method Encode(c: Coder, buf: array<byte>, len: nat) returns (r: Bytes)
    requires c.Valid() && len <= buf.Length
    modifies buf
    ensures EncodedRaw(c, Wrapped(old(buf[..len]))).Ok?
    ensures r == Flatten(EncodedRaw(c, Wrapped(old(buf[..len]))).value)
    ensures buf[..] == if buf.Length >= len + WRAP_OVERHEAD
                       then Wrapped(old(buf[..len])) + old(buf[len + WRAP_OVERHEAD..]) else old(buf[..])
  {
    hide Wrapped, Split;
    var out, n := WrapData(buf, len);
    assert out == buf ==> buf[..] == out[..n] + buf[n..];
    SplitShape(c, out[..n]);
    r := Concatenate(EncodedRaw(c, out[..n]).value);
  }

  /** ExtractDataRaw: reconstructs missing shards in the caller's slice of shards. */
  method ExtractDataRaw(c: Coder, blocks: array<Bytes>, originalSize: int) returns (r: Outcome<Bytes>)
    requires c.Total() > 0
    modifies blocks
    ensures r == ExtractedRaw(c, old(blocks[..]), originalSize)
    ensures r.Ok? ==> |Recovered(c, old(blocks[..])).value| == blocks.Length
                      && blocks[..] == Recovered(c, old(blocks[..])).value
    ensures c.Valid() && r.Ok? ==> Restored(c, old(blocks[..]), blocks[..])
    ensures c.Valid() && IsCorrupted(c, old(blocks[..])) ==> r == Err(Corrupted)
  {
    hide Restored, IsCorrupted, Uniform, Missing, PresentSize;
    ghost var given := blocks[..];
    if c.Valid() {
      RecoveredIsRestored(c, given);
      RejectsCorrupted(c, given);
    }
    var verdict := Verify(c, blocks[..]);
    if verdict.Err? {
      if verdict.error != ShardSize {
        return Err(verdict.error);
      }
      var whole := Reconstruct(c, blocks[..]);
      if whole.Err? {
        return Err(whole.error);
      }
      verdict := Verify(c, whole.value);
      if verdict.Err? {
        return Err(verdict.error);
      }
      forall i | 0 <= i < blocks.Length {
        blocks[i] := whole.value[i];
      }
      assert blocks[..] == whole.value;
    }
    if verdict != Ok(true) {
      return Err(Corrupted);
    }
    var outSize := c.k * |blocks[0]|;
    r := Join(c, blocks[..], outSize);
  }

  /** ExtractData: the same on shards of wrapped data, and unwraps it. */
  method ExtractData(c: Coder, blocks: array<Bytes>) returns (r: Outcome<Bytes>)
    requires c.Total() > 0
    modifies blocks
    ensures r == Extracted(c, old(blocks[..]))
    ensures c.Valid() && IsCorrupted(c, old(blocks[..])) ==> r == Err(Corrupted)
  {
    hide ExtractedRaw, UnwrapData, Recovered, IsCorrupted;
    r := ExtractDataRaw(c, blocks, 0);
    if r.Ok? {
      r := UnwrapData(r.value);
    }
  }
}
