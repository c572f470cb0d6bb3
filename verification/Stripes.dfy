/** The striped layout of a chunk: ciphertext cut into stripes, stripes into shards, and the shards stored
    column-major, one block per shard; and the reverse. */
module Stripes {
  import opened Base
  import opened Pieces
  import opened ErasureCode

  const MAX_STRIPE_SIZE := 2097152

  /** The shards of one stripe. */
  function Row(c: Coder, stripe: Bytes): seq<Bytes>
    requires c.k > 0
  {
    match EncodedRaw(c, stripe)
    case Ok(shards) => shards
    case _ => []
  }

  function Rows(c: Coder, stripes: seq<Bytes>): (rows: seq<seq<Bytes>>)
    requires c.k > 0
    ensures |rows| == |stripes|
  {
    if stripes == [] then [] else [Row(c, stripes[0])] + Rows(c, stripes[1..])
  }

  /** Every row has n shards, and the shards of a row have one size. */
  ghost predicate Rectangular(rows: seq<seq<Bytes>>, n: nat) {
    forall j :: 0 <= j < |rows| ==> Uniform(rows[j], n)
  }

  function Shard(row: seq<Bytes>, i: nat): Bytes { if i < |row| then row[i] else [] }

  /** Shard i of every stripe, one after another: block i of the chunk. */
  function Column(rows: seq<seq<Bytes>>, i: nat): Bytes {
    if rows == [] then [] else Shard(rows[0], i) + Column(rows[1..], i)
  }

  /** The sum of the shard sizes. */
  function BlockSize(rows: seq<seq<Bytes>>): nat {
    if rows == [] then 0 else |Shard(rows[0], 0)| + BlockSize(rows[1..])
  }

  /** The first m columns. */
  function Columns(rows: seq<seq<Bytes>>, m: nat): (cs: seq<Bytes>)
    ensures |cs| == m
    ensures forall i :: 0 <= i < m ==> cs[i] == Column(rows, i)
  {
    if m == 0 then [] else Columns(rows, m - 1) + [Column(rows, m - 1)]
  }

  /** The blocks of a chunk with this ciphertext. */
  function BlocksOf(c: Coder, data: Bytes): (blocks: seq<Bytes>)
    requires c.k > 0
    ensures |blocks| == c.Total()
  {
    Columns(RowsOf(c, data), c.Total())
  }

  function RowsOf(c: Coder, data: Bytes): seq<seq<Bytes>>
    requires c.k > 0
  {
    Rows(c, Cut(data, MAX_STRIPE_SIZE))
  }

  lemma RowShape(c: Coder, stripe: Bytes)
    requires c.Valid() && stripe != []
    ensures EncodedRaw(c, stripe) == Ok(Row(c, stripe))
    ensures Uniform(Row(c, stripe), c.Total())
    ensures |Row(c, stripe)[0]| == CeilDiv(|stripe|, c.k)
    ensures Row(c, stripe)[..c.k] == Split(c, stripe).value
  {
    SplitShape(c, stripe);
    CodewordShape(c, Split(c, stripe).value);
  }

  lemma {:induction false} RowsShape(c: Coder, stripes: seq<Bytes>)
    requires c.Valid() && [] !in stripes
    ensures Rectangular(Rows(c, stripes), c.Total())
    ensures forall j :: 0 <= j < |stripes| ==> Rows(c, stripes)[j] == Row(c, stripes[j])
  {
    hide Row, EncodedRaw, Uniform;
    if stripes == [] {
    } else {
      RowShape(c, stripes[0]);
      RowsShape(c, stripes[1..]);
    }
  }

  lemma {:induction false} ColumnLength(rows: seq<seq<Bytes>>, n: nat, i: nat)
    requires i < n && Rectangular(rows, n)
    ensures |Column(rows, i)| == BlockSize(rows)
  {
    if rows == [] {
    } else {
      assert rows[0][i] in rows[0];
      ColumnLength(rows[1..], n, i);
    }
  }

  lemma {:induction false} ColumnConcat(a: seq<seq<Bytes>>, b: seq<seq<Bytes>>, i: nat)
    ensures Column(a + b, i) == Column(a, i) + Column(b, i)
  {
    if a == [] {
      assert a + b == b;
    } else {
      ColumnConcat(a[1..], b, i);
      assert (a + b)[1..] == a[1..] + b;
      Associative(Shard(a[0], i), Column(a[1..], i), Column(b, i));
    }
  }

  lemma {:induction false} BlockSizeConcat(a: seq<seq<Bytes>>, b: seq<seq<Bytes>>)
    ensures BlockSize(a + b) == BlockSize(a) + BlockSize(b)
  {
    if a == [] {
      assert a + b == b;
    } else {
      BlockSizeConcat(a[1..], b);
      assert (a + b)[1..] == a[1..] + b;
    }
  }

  lemma OneRow(row: seq<Bytes>, i: nat)
    ensures Column([row], i) == Shard(row, i) && BlockSize([row]) == |Shard(row, 0)|
  {
  }

  /** Column i is what lies before, at, and after row j. */
  lemma ColumnSplit(rows: seq<seq<Bytes>>, i: nat, j: nat)
    requires j < |rows|
    ensures Column(rows, i) == Column(rows[..j], i) + Shard(rows[j], i) + Column(rows[j + 1..], i)
    ensures BlockSize(rows[..j + 1]) == BlockSize(rows[..j]) + |Shard(rows[j], 0)|
  {
    hide Column, BlockSize;
    OneRow(rows[j], i);
    assert rows == rows[..j + 1] + rows[j + 1..];
    TailCons(rows, j);
    ColumnConcat(rows[..j + 1], rows[j + 1..], i);
    ColumnConcat(rows[..j], [rows[j]], i);
    BlockSizeConcat(rows[..j], [rows[j]]);
  }

  lemma InTheMiddle(x: Bytes, y: Bytes, z: Bytes)
    ensures (x + y + z)[|x|..|x| + |y|] == y && |x + y + z| >= |x| + |y|
  {
  }

  /** Reading block i from where the first j shards end for the length of the j-th shard gives that shard,
      and the last shard ends exactly at the end of the block. */
  lemma ShardInColumn(rows: seq<seq<Bytes>>, n: nat, i: nat, j: nat)
    requires i < n && j < |rows| && Rectangular(rows, n)
    ensures var off, size := BlockSize(rows[..j]), |rows[j][0]|;
            && off + size == BlockSize(rows[..j + 1]) <= |Column(rows, i)|
            && Column(rows, i)[off..off + size] == rows[j][i]
    ensures j + 1 == |rows| ==> BlockSize(rows[..j + 1]) == |Column(rows, i)|
  {
    hide Column, BlockSize;
    ColumnSplit(rows, i, j);
    ColumnLength(rows[..j], n, i);
    ColumnLength(rows, n, i);
    assert rows[j][i] in rows[j];
    InTheMiddle(Column(rows[..j], i), rows[j][i], Column(rows[j + 1..], i));
    assert j + 1 == |rows| ==> rows[..j + 1] == rows;
  }

  /** The blocks that the DAG builder cuts out of the column-major data are the columns. */
  lemma CutsIntoColumns(rows: seq<seq<Bytes>>, n: nat)
    requires n > 0 && rows != [] && Rectangular(rows, n)
    ensures BlockSize(rows) > 0
    ensures Cut(Flatten(Columns(rows, n)), BlockSize(rows)) == Columns(rows, n)
  {
    var cs, size := Columns(rows, n), BlockSize(rows);
    forall p | p in cs
      ensures |p| == size
    {
      var i :| 0 <= i < n && cs[i] == p;
      ColumnLength(rows, n, i);
    }
    CutFlatten(cs, size);
  }

  // ---- what reassembling yields

  function Padding(k: nat, stripe: Bytes): nat
    requires k > 0
  {
    CeilDivBounds(|stripe|, k);
    k * CeilDiv(|stripe|, k) - |stripe|
  }

  /** The stripes, each with the zero padding of its last shards. */
  function Padded(k: nat, stripes: seq<Bytes>): Bytes
    requires k > 0
  {
    if stripes == [] then [] else stripes[0] + Zeros(Padding(k, stripes[0])) + Padded(k, stripes[1..])
  }

  lemma PaddedStep(k: nat, stripes: seq<Bytes>, j: nat)
    requires k > 0 && j < |stripes|
    ensures Padded(k, stripes[j..]) == stripes[j] + Zeros(Padding(k, stripes[j])) + Padded(k, stripes[j + 1..])
  {
  }

  /** No padding at all: the data shards of every stripe are full. */
  predicate Divides(k: nat, stripes: seq<Bytes>)
    requires k > 0
  {
    forall s :: s in stripes ==> |s| % k == 0
  }

  lemma {:induction false} PaddedLength(k: nat, stripes: seq<Bytes>)
    requires k > 0
    ensures |Padded(k, stripes)| >= |Flatten(stripes)|
    ensures |Padded(k, stripes)| == |Flatten(stripes)| <==> Divides(k, stripes)
    ensures Divides(k, stripes) ==> Padded(k, stripes) == Flatten(stripes)
  {
    if stripes == [] {
    } else {
      PaddedLength(k, stripes[1..]);
      CeilDivBounds(|stripes[0]|, k);
      DividesIff(|stripes[0]|, k, CeilDiv(|stripes[0]|, k));
      assert stripes == [stripes[0]] + stripes[1..];
    }
  }

  /** The segment of every block that holds the shards of one stripe, when it lies inside every block. */
  function Segment(blocks: seq<Bytes>, off: nat, size: nat): Outcome<seq<Bytes>> {
    if blocks == [] then Ok([])
    else if off + size > |blocks[0]| then Panic
    else
      match Segment(blocks[1..], off, size)
      case Ok(rest) => Ok([blocks[0][off..off + size]] + rest)
      case Err(e) => Err(e)
      case Panic => Panic
  }

  lemma RowLength(rows: seq<seq<Bytes>>, n: nat, j: nat)
    requires j < |rows| && Rectangular(rows, n)
    ensures |rows[j]| == n > 0 && |rows[j][0]| > 0
  {
  }

  lemma {:induction false} SegmentOfColumns(rows: seq<seq<Bytes>>, n: nat, m: nat, j: nat)
    requires j < |rows| && m <= n && Rectangular(rows, n)
    ensures |rows[j]| == n > 0
    ensures Segment(Columns(rows, n)[m..], BlockSize(rows[..j]), |rows[j][0]|) == Ok(rows[j][m..])
    decreases n - m
  {
    hide Column, Columns, BlockSize, Uniform, Rectangular;
    RowLength(rows, n, j);
    if m < n {
      ShardInColumn(rows, n, m, j);
      SegmentOfColumns(rows, n, m + 1, j);
      SegmentStep(Columns(rows, n), m, BlockSize(rows[..j]), |rows[j][0]|, rows[j][m + 1..]);
      TailCons(rows[j], m);
    } else {
      assert Columns(rows, n)[m..] == [] && rows[j][m..] == [];
    }
  }

  lemma SegmentStep(blocks: seq<Bytes>, m: nat, off: nat, size: nat, rest: seq<Bytes>)
    requires m < |blocks| && off + size <= |blocks[m]|
    requires Segment(blocks[m + 1..], off, size) == Ok(rest)
    ensures Segment(blocks[m..], off, size) == Ok([blocks[m][off..off + size]] + rest)
  {
  }

  /** The stripe loop of the download from stripe j on, having consumed `off` bytes of every block. */
  function Reassembled(c: Coder, blocks: seq<Bytes>, size: nat, j: nat, off: nat): Outcome<Bytes>
    requires c.k > 0 && j <= CeilDiv(size, MAX_STRIPE_SIZE)
    decreases CeilDiv(size, MAX_STRIPE_SIZE) - j
  {
    if j == CeilDiv(size, MAX_STRIPE_SIZE) then Ok([]) else
      var stripeSize := Min(MAX_STRIPE_SIZE, size - j * 2097152);
      var shardSize := CeilDiv(stripeSize, c.k);
      match Segment(blocks, off, shardSize)
      case Panic => Panic
      case Err(e) => Err(e)
      case Ok(shards) =>
        match ExtractedRaw(c, shards, stripeSize)
        case Panic => Panic
        case Err(e) => Err(e)
        case Ok(data) => Prepend(data, Reassembled(c, blocks, size, j + 1, off + shardSize))
  }

  /** The sizes recomputed from the ciphertext length are those of the stripes, for every k. */
  lemma StripeSizes(data: Bytes, j: nat)
    requires j < CeilDiv(|data|, MAX_STRIPE_SIZE)
    ensures |Cut(data, MAX_STRIPE_SIZE)| == CeilDiv(|data|, MAX_STRIPE_SIZE)
    ensures |Cut(data, MAX_STRIPE_SIZE)[j]| == Min(MAX_STRIPE_SIZE, |data| - j * 2097152) > 0
  {
    CutAt(data, MAX_STRIPE_SIZE, j);
  }

  lemma {:induction false} ReassemblesFrom(c: Coder, data: Bytes, j: nat)
    requires c.Valid() && j <= CeilDiv(|data|, MAX_STRIPE_SIZE)
    ensures j <= |Cut(data, MAX_STRIPE_SIZE)|
    ensures Reassembled(c, BlocksOf(c, data), |data|, j, BlockSize(RowsOf(c, data)[..j]))
         == Ok(Padded(c.k, Cut(data, MAX_STRIPE_SIZE)[j..]))
    decreases CeilDiv(|data|, MAX_STRIPE_SIZE) - j
  {
    hide Cut, Rows, RowsOf, BlocksOf, BlockSize, ExtractedRaw, Segment, CeilDiv, Padding;
    CutCount(data, MAX_STRIPE_SIZE);
    var stripes := Cut(data, MAX_STRIPE_SIZE);
    if j < |stripes| {
      ReassemblesFrom(c, data, j + 1);
      PaddedStep(c.k, stripes, j);
      ReassembleStep(c, data, j);
    } else {
      assert stripes[j..] == [];
    }
  }

  /** One turn of the stripe loop: the segment is row j, and its shards give stripe j with its padding. */
  lemma ReassembleStep(c: Coder, data: Bytes, j: nat)
    requires c.Valid() && j < CeilDiv(|data|, MAX_STRIPE_SIZE)
    ensures j < |Cut(data, MAX_STRIPE_SIZE)|
    ensures var stripe, rows := Cut(data, MAX_STRIPE_SIZE)[j], RowsOf(c, data);
            && j < |rows|
            && Reassembled(c, BlocksOf(c, data), |data|, j, BlockSize(rows[..j]))
            == Prepend(stripe + Zeros(Padding(c.k, stripe)),
                      Reassembled(c, BlocksOf(c, data), |data|, j + 1, BlockSize(rows[..j + 1])))
  {
    hide Cut, Rows, RowsOf, BlocksOf, BlockSize, ExtractedRaw, Segment, CeilDiv, Padding;
    RowInBlocks(c, data, j);
    StripeSizes(data, j);
  }

  lemma RowInBlocks(c: Coder, data: Bytes, j: nat)
    requires c.Valid() && j < CeilDiv(|data|, MAX_STRIPE_SIZE)
    ensures j < |Cut(data, MAX_STRIPE_SIZE)| == |RowsOf(c, data)|
    ensures var stripe, rows := Cut(data, MAX_STRIPE_SIZE)[j], RowsOf(c, data);
            && stripe != []
            && var shardSize := CeilDiv(|stripe|, c.k);
            && Segment(BlocksOf(c, data), BlockSize(rows[..j]), shardSize) == Ok(rows[j])
            && ExtractedRaw(c, rows[j], |stripe|) == Ok(stripe + Zeros(Padding(c.k, stripe)))
            && BlockSize(rows[..j]) + shardSize == BlockSize(rows[..j + 1])
  {
    hide Cut, Rows, Row, Column, Columns, BlockSize, ExtractedRaw, Segment, CeilDiv, Padding;
    var stripes, n := Cut(data, MAX_STRIPE_SIZE), c.Total();
    var rows := Rows(c, stripes);
    CutSizes(data, MAX_STRIPE_SIZE);
    StripeSizes(data, j);
    RowsShape(c, stripes);
    RowShape(c, stripes[j]);
    SegmentOfColumns(rows, n, 0, j);
    ShardInColumn(rows, n, 0, j);
    assert Columns(rows, n)[0..] == Columns(rows, n) && rows[j][0..] == rows[j];
    WholeRow(c, stripes[j]);
  }

  lemma WholeRow(c: Coder, stripe: Bytes)
    requires c.Valid() && stripe != []
    ensures ExtractedRaw(c, Row(c, stripe), |stripe|) == Ok(stripe + Zeros(Padding(c.k, stripe)))
  {
    RowShape(c, stripe);
    var row := Row(c, stripe);
    NoneMissing(row);
    ExtractsRaw(c, stripe, row, |stripe|);
  }

  /** Storing column-major and reading back gives the data back exactly when k divides the size of every stripe.
      ExtractDataRaw ignores the original size it is given; this is when that is harmless. */
  lemma ReassemblesIff(c: Coder, data: Bytes)
    requires c.Valid()
    ensures Reassembled(c, BlocksOf(c, data), |data|, 0, 0) == Ok(Padded(c.k, Cut(data, MAX_STRIPE_SIZE)))
    ensures Reassembled(c, BlocksOf(c, data), |data|, 0, 0) == Ok(data) <==> Divides(c.k, Cut(data, MAX_STRIPE_SIZE))
  {
    var stripes := Cut(data, MAX_STRIPE_SIZE);
    ReassemblesFrom(c, data, 0);
    assert stripes[0..] == stripes && RowsOf(c, data)[..0] == [];
    PaddedLength(c.k, stripes);
    FlattenCut(data, MAX_STRIPE_SIZE);
  }

  /** The shard sizes that the download computes from the ciphertext length, summed from stripe j on. */
  function ShardSizesFrom(k: nat, size: nat, j: nat): nat
    requires k > 0 && j <= CeilDiv(size, MAX_STRIPE_SIZE)
    decreases CeilDiv(size, MAX_STRIPE_SIZE) - j
  {
    if j == CeilDiv(size, MAX_STRIPE_SIZE) then 0
    else
      assert j * 2097152 < size;
      CeilDiv(Min(MAX_STRIPE_SIZE, size - j * 2097152), k) + ShardSizesFrom(k, size, j + 1)
  }

  /** For every k, the recomputed shard sizes add up to the block size used on upload: the offset ends at the end
      of every block. */
  lemma ShardSizesSum(c: Coder, data: Bytes, i: nat)
    requires c.Valid() && i < c.Total()
    ensures ShardSizesFrom(c.k, |data|, 0) == BlockSize(RowsOf(c, data)) == |BlocksOf(c, data)[i]|
  {
    hide Cut, Rows, Column, BlockSize, CeilDiv, Uniform;
    ShardSizesSumFrom(c, data, 0);
    BlockSizeEnds(RowsOf(c, data));
    CutSizes(data, MAX_STRIPE_SIZE);
    RowsShape(c, Cut(data, MAX_STRIPE_SIZE));
    ColumnLength(RowsOf(c, data), c.Total(), i);
  }

  lemma BlockSizeEnds(rows: seq<seq<Bytes>>)
    ensures BlockSize(rows[..0]) == 0 && rows[..|rows|] == rows
  {
  }

  lemma {:induction false} ShardSizesSumFrom(c: Coder, data: Bytes, j: nat)
    requires c.Valid() && j <= CeilDiv(|data|, MAX_STRIPE_SIZE)
    ensures j <= |RowsOf(c, data)|
    ensures BlockSize(RowsOf(c, data)[..j]) + ShardSizesFrom(c.k, |data|, j)
         == BlockSize(RowsOf(c, data)[..|RowsOf(c, data)|])
    decreases CeilDiv(|data|, MAX_STRIPE_SIZE) - j
  {
    hide Cut, Rows, Column, BlockSize, CeilDiv, Segment, BlocksOf, Padding, ExtractedRaw;
    CutCount(data, MAX_STRIPE_SIZE);
    if j == CeilDiv(|data|, MAX_STRIPE_SIZE) {
    } else {
      RowInBlocks(c, data, j);
      StripeSizes(data, j);
      ShardSizesSumFrom(c, data, j + 1);
    }
  }

  // ---- the header in the first columns

  /** The first `need` bytes of the given blocks, or all bytes when there are fewer. */
  function FirstBytes(blocks: seq<Bytes>, need: nat): (r: Bytes)
    ensures |r| <= need
  {
    var all := Flatten(blocks);
    all[..Min(need, |all|)]
  }

  /** The data blocks start with the first bytes of the data: for a single stripe they are the data followed by
      padding, and for several the first shard alone is long enough. */
  lemma HeaderInColumns(c: Coder, data: Bytes, need: nat)
    requires c.Valid() && 0 < need <= |data| && need <= 8192
    ensures FirstBytes(BlocksOf(c, data)[..c.k], need) == data[..need]
  {
    hide Cut, Rows, RowsOf, Row, BlockSize, CeilDiv, Column, Columns, Flatten;
    FirstRow(c, data, need);
    var rows, n := RowsOf(c, data), c.Total();
    if |data| <= MAX_STRIPE_SIZE {
      OnlyRow(c, data);
      OneRowColumns(rows[0], n, c.k);
    } else {
      LongShard(c.k);
      FirstColumn(rows);
      FirstOfFlatten(rows[0][..c.k], need);
      FirstOfFlatten(Columns(rows, n)[..c.k], need);
    }
  }

  lemma OnlyRow(c: Coder, data: Bytes)
    requires c.k > 0 && 0 < |data| <= MAX_STRIPE_SIZE
    ensures |RowsOf(c, data)| == 1 && RowsOf(c, data) == [RowsOf(c, data)[0]]
  {
    hide Row;
    CutOne(data, MAX_STRIPE_SIZE);
  }

  lemma FirstColumn(rows: seq<seq<Bytes>>)
    requires rows != [] && rows[0] != []
    ensures rows[0][0] <= Column(rows, 0)
  {
  }

  /** The data shards of the first stripe start with the data. */
  lemma FirstRow(c: Coder, data: Bytes, need: nat)
    requires c.Valid() && 0 < need <= |data| && need <= 8192
    ensures RowsOf(c, data) != [] && Uniform(RowsOf(c, data)[0], c.Total())
    ensures var shards := RowsOf(c, data)[0][..c.k];
            && need <= |Flatten(shards)| && Flatten(shards)[..need] == data[..need]
            && |shards[0]| == CeilDiv(Min(MAX_STRIPE_SIZE, |data|), c.k)
  {
    hide Row, CeilDiv, Split;
    var first := data[..Min(MAX_STRIPE_SIZE, |data|)];
    assert RowsOf(c, data)[0] == Row(c, first);
    RowShape(c, first);
    SplitShape(c, first);
    assert first[..need] == data[..need];
  }

  lemma OneRowColumns(row: seq<Bytes>, n: nat, k: nat)
    requires Uniform(row, n) && k <= n
    ensures Columns([row], n)[..k] == row[..k]
  {
    forall i | 0 <= i < k
      ensures Column([row], i) == row[i]
    {
      OneRow(row, i);
    }
  }

  lemma FirstOfFlatten(ps: seq<Bytes>, need: nat)
    requires ps != [] && need <= |ps[0]|
    ensures need <= |Flatten(ps)| && Flatten(ps)[..need] == ps[0][..need]
  {
  }

  lemma LongShard(k: nat)
    requires 0 < k <= 256
    ensures CeilDiv(MAX_STRIPE_SIZE, k) >= 8192
  {
  }
}
