/** A concrete erasure code: one parity shard, chosen so that every column of bytes sums to zero modulo 256.
    It shows that what is assumed of a coder can be met for every number of data shards, and gives examples. */
module ParityCode {
  import opened Base
  import opened Pieces
  import opened ErasureCode

  /** Addition and negation modulo 256. */
  function Add(a: byte, b: byte): byte { if a + b < 256 then a + b else a + b - 256 }

  function Negated(a: byte): byte { if a == 0 then 0 else 256 - a }

  function ByteAt(shard: Bytes, i: nat): byte { if i < |shard| then shard[i] else 0 }

  /** The sum of column i, of the shards that are present. */
  function SumAt(shards: seq<Bytes>, i: nat): byte {
    if shards == [] then 0 else Add(ByteAt(shards[0], i), SumAt(shards[1..], i))
  }

  /** The shard that makes every column sum to zero. */
  function Balance(shards: seq<Bytes>): Bytes {
    seq(PresentSize(shards), i requires 0 <= i => Negated(SumAt(shards, i)))
  }

  function SumParity(k: nat): Coder {
    Coder(k, 1, data => [Balance(data)],
          shards => seq(|shards|, j requires 0 <= j < |shards| =>
                                    if shards[j] == [] then Balance(shards) else shards[j]))
  }

  lemma {:induction false} SumConcat(a: seq<Bytes>, s: Bytes, i: nat)
    ensures SumAt(a + [s], i) == Add(SumAt(a, i), ByteAt(s, i))
  {
    if a == [] {
      assert [] + [s] == [s] && [s][1..] == [];
    } else {
      SumConcat(a[1..], s, i);
      assert (a + [s])[1..] == a[1..] + [s];
    }
  }

  lemma ColumnsBalance(data: seq<Bytes>, i: nat)
    requires i < PresentSize(data)
    ensures SumAt(data + [Balance(data)], i) == 0
  {
    SumConcat(data, Balance(data), i);
  }

  lemma NothingAt(i: nat)
    ensures ByteAt([], i) == 0
  {
  }

  /** A missing shard takes its own bytes out of the sums. */
  lemma {:induction false} SumWithout(whole: seq<Bytes>, shards: seq<Bytes>, j: nat, i: nat)
    requires |shards| == |whole| && j < |whole| && shards[j] == []
    requires forall l :: 0 <= l < |whole| && l != j ==> shards[l] == whole[l]
    ensures SumAt(whole, i) == Add(SumAt(shards, i), ByteAt(whole[j], i))
  {
    hide ByteAt;
    NothingAt(i);
    if j == 0 {
      assert shards[1..] == whole[1..];
    } else {
      assert shards[0] == whole[0];
      SumWithout(whole[1..], shards[1..], j - 1, i);
    }
  }

  lemma {:induction false} OnlyMissing(shards: seq<Bytes>, j: nat)
    requires j < |shards| && shards[j] == [] && Missing(shards) <= 1
    ensures forall l :: 0 <= l < |shards| && l != j ==> shards[l] != []
  {
    var rest := shards[1..];
    assert forall l :: 1 <= l < |shards| ==> shards[l] == rest[l - 1];
    if j == 0 {
      NoneMissing(rest);
      assert forall l :: 0 <= l < |rest| ==> rest[l] in rest;
    } else {
      NoneMissing(rest);
      assert rest[j - 1] in rest;
      OnlyMissing(rest, j - 1);
    }
  }

  lemma {:induction false} SizeOf(shards: seq<Bytes>, size: nat)
    requires forall s :: s in shards ==> s == [] || |s| == size
    requires exists s :: s in shards && s != []
    ensures PresentSize(shards) == size
  {
    assert shards[0] in shards && forall s :: s in shards[1..] ==> s in shards;
    if shards[0] == [] {
      assert shards == [shards[0]] + shards[1..];
      SizeOf(shards[1..], size);
    }
  }

  lemma {:induction false} UniformSize(data: seq<Bytes>, k: nat)
    requires Uniform(data, k)
    ensures |Balance(data)| == |data[0]| == PresentSize(data)
  {
  }

  lemma SizeWithout(data: seq<Bytes>, k: nat, shards: seq<Bytes>, j: nat)
    requires k > 0 && Uniform(data, k) && Damaged(data + [Balance(data)], shards) && Missing(shards) <= 1
    requires j < |shards| && shards[j] == []
    ensures PresentSize(shards) == |data[0]| == |(data + [Balance(data)])[j]| == PresentSize(data)
  {
    hide Balance, Missing;
    var w := data + [Balance(data)];
    UniformSize(data, k);
    OnlyMissing(shards, j);
    forall s | s in shards
      ensures s == [] || |s| == |data[0]|
    {
      var l :| 0 <= l < |shards| && shards[l] == s;
      assert w[l] in data || w[l] == Balance(data);
    }
    var other := if j == 0 then 1 else 0;
    assert shards[other] in shards;
    SizeOf(shards, |data[0]|);
    assert w[j] in data || w[j] == Balance(data);
  }

  lemma ByteWithout(data: seq<Bytes>, shards: seq<Bytes>, j: nat, i: nat)
    requires Damaged(data + [Balance(data)], shards) && Missing(shards) <= 1
    requires j < |shards| && shards[j] == [] && i < PresentSize(data)
    ensures Negated(SumAt(shards, i)) == ByteAt((data + [Balance(data)])[j], i)
  {
    hide Balance, Missing, SumAt;
    OnlyMissing(shards, j);
    ColumnsBalance(data, i);
    SumWithout(data + [Balance(data)], shards, j, i);
  }

  /** A missing shard is the balance of the others. */
  lemma Restores(data: seq<Bytes>, k: nat, shards: seq<Bytes>, j: nat)
    requires k > 0 && Uniform(data, k) && Damaged(data + [Balance(data)], shards) && Missing(shards) <= 1
    requires j < |shards| && shards[j] == []
    ensures Balance(shards) == (data + [Balance(data)])[j]
  {
    hide SumAt, Missing, PresentSize, Negated;
    var w := data + [Balance(data)];
    SizeWithout(data, k, shards, j);
    forall i | 0 <= i < |w[j]|
      ensures Balance(shards)[i] == w[j][i]
    {
      ByteWithout(data, shards, j, i);
    }
  }

  /** The assumptions about a coder are met for every number of data shards up to 255. */
  lemma SumParityIsValid(k: nat)
    requires 0 < k <= 255
    ensures SumParity(k).Valid()
  {
    var c := SumParity(k);
    forall data, p | Uniform(data, k) && p in c.parity(data)
      ensures |p| == |data[0]|
    {
      UniformSize(data, k);
    }
    forall data, shards | Uniform(data, k) && Damaged(c.Codeword(data), shards) && Missing(shards) <= 1
      ensures c.restore(shards) == c.Codeword(data)
    {
      forall j | 0 <= j < |shards|
        ensures c.restore(shards)[j] == c.Codeword(data)[j]
      {
        if shards[j] == [] {
          Restores(data, k, shards, j);
        }
      }
    }
  }

  lemma AllPresent(c: Coder, data: Bytes)
    requires c.Valid() && data != []
    ensures EncodedRaw(c, data).Ok?
    ensures var shards := EncodedRaw(c, data).value; Damaged(shards, shards) && Missing(shards) == 0
  {
    hide Split, Missing;
    SplitShape(c, data);
    CodewordShape(c, Split(c, data).value);
    NoneMissing(EncodedRaw(c, data).value);
  }

  /** With two data shards one byte comes back as two: the original size that is passed makes no difference. */
  lemma OneByteComesBackAsTwo()
    ensures SumParity(2).Valid()
    ensures EncodedRaw(SumParity(2), [7]).Ok?
    ensures ExtractedRaw(SumParity(2), EncodedRaw(SumParity(2), [7]).value, 1) == Ok([7, 0])
  {
    hide EncodedRaw, ExtractedRaw, Missing, Damaged, Balance;
    var c, data: Bytes := SumParity(2), [7];
    SumParityIsValid(2);
    AllPresent(c, data);
    ExtractsRaw(c, data, EncodedRaw(c, data).value, 1);
    assert CeilDiv(1, 2) == 1;
    assert data + Zeros(1) == [7, 0];
  }
}
