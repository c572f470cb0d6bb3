/** What an upload remembers between calls: the chunks recorded so far, the file sizes, and the chunks that
    were recorded but are not yet uploaded. */
module UploadRecord {
  import opened Base
  import opened Pieces

  /** A chunk as createChunkUpload returns it; its content stands for the blocks made from it. */
  datatype Chunk = Chunk(index: nat, data: Bytes, cid: nat, rawDataSize: nat, encodedSize: nat)

  datatype ChunkWithTx = ChunkWithTx(chunk: Chunk, tx: nat)

  /** A link of the root DAG. */
  datatype Link = Link(cid: nat, rawDataSize: nat, encodedSize: nat)

  function LinkOf(c: Chunk): Link { Link(c.cid, c.rawDataSize, c.encodedSize) }

  datatype Record = Record(
    preCreated: map<nat, ChunkWithTx>,
    isCommitted: bool,
    chunkCount: nat,
    actualFileSize: nat,
    encodedFileSize: nat,
    links: seq<Link>)

  const EMPTY := Record(map[], false, 0, 0, 0, [])

  function PreCreated(r: Record, chunk: Chunk, tx: nat): Record {
    r.(preCreated := r.preCreated[chunk.index := ChunkWithTx(chunk, tx)],
       chunkCount := r.chunkCount + 1,
       actualFileSize := r.actualFileSize + |chunk.data|,
       encodedFileSize := r.encodedFileSize + chunk.encodedSize,
       links := r.links + [LinkOf(chunk)])
  }

  function Uploaded(r: Record, chunk: Chunk): Record {
    r.(preCreated := r.preCreated - {chunk.index})
  }

  lemma {:induction false} Least(s: set<nat>) returns (m: nat)
    requires s != {}
    ensures m in s && forall y :: y in s ==> m <= y
    decreases s
  {
    var x :| x in s;
    var rest := s - {x};
    assert forall y :: y in s <==> y == x || y in rest;
    m := x;
    if rest != {} {
      var l := Least(rest);
      m := if l < x then l else x;
    }
  }

  lemma LeastExists(s: set<nat>)
    requires s != {}
    ensures exists m :: m in s && forall y :: y in s ==> m <= y
  {
    var m := Least(s);
  }

  function Smallest(s: set<nat>): (m: nat)
    requires s != {}
    ensures m in s && forall y :: y in s ==> m <= y
  {
    LeastExists(s);
    var m :| m in s && forall y :: y in s ==> m <= y;
    m
  }

  lemma SmallestFirst(keys: set<nat>, m: nat, rest: seq<nat>)
    requires m in keys && (forall y :: y in keys ==> m <= y)
    requires forall i, j :: 0 <= i < j < |rest| ==> rest[i] < rest[j]
    requires forall k :: k in rest <==> k in keys - {m}
    ensures var s := [m] + rest; forall i, j :: 0 <= i < j < |s| ==> s[i] < s[j]
    ensures forall k :: k in [m] + rest <==> k in keys
  {
    assert forall i :: 0 <= i < |rest| ==> rest[i] in rest;
  }

  /** The keys in ascending order. */
  function Sorted(keys: set<nat>): (s: seq<nat>)
    ensures forall i, j :: 0 <= i < j < |s| ==> s[i] < s[j]
    ensures forall k :: k in s <==> k in keys
    decreases keys
  {
    if keys == {} then [] else
      var m := Smallest(keys);
      var rest := Sorted(keys - {m});
      SmallestFirst(keys, m, rest);
      [m] + rest
  }

  /** listPreCreatedChunks: the entries in the order in which the chunks were added. */
  function Listed(pre: map<nat, ChunkWithTx>): (list: seq<ChunkWithTx>)
    ensures |list| == |Sorted(pre.Keys)|
    ensures forall i :: 0 <= i < |list| ==> Sorted(pre.Keys)[i] in pre && list[i] == pre[Sorted(pre.Keys)[i]]
  {
    var keys := Sorted(pre.Keys);
    assert forall i :: 0 <= i < |keys| ==> keys[i] in keys;
    seq(|keys|, i requires 0 <= i < |keys| => pre[keys[i]])
  }

  /** uploadState and its three methods. */
  class UploadState {
    var preCreatedChunks: map<nat, ChunkWithTx>
    var isCommitted: bool
    var chunkCount: nat
    var actualFileSize: nat
    var encodedFileSize: nat
    var links: seq<Link>

    function Value(): Record
      reads this
    {
      Record(preCreatedChunks, isCommitted, chunkCount, actualFileSize, encodedFileSize, links)
    }

    constructor ()
      ensures Value() == EMPTY
    {
      preCreatedChunks, isCommitted, chunkCount, actualFileSize, encodedFileSize, links := map[], false, 0, 0, 0, [];
    }

    method PreCreateChunk(chunk: Chunk, tx: nat)
      modifies this
      ensures Value() == PreCreated(old(Value()), chunk, tx)
      ensures preCreatedChunks == old(preCreatedChunks)[chunk.index := ChunkWithTx(chunk, tx)]
      ensures links == old(links) + [Link(chunk.cid, chunk.rawDataSize, chunk.encodedSize)]
      ensures chunkCount == old(chunkCount) + 1 && actualFileSize == old(actualFileSize) + |chunk.data|
      ensures encodedFileSize == old(encodedFileSize) + chunk.encodedSize && isCommitted == old(isCommitted)
    {
      preCreatedChunks := preCreatedChunks[chunk.index := ChunkWithTx(chunk, tx)];
      chunkCount := chunkCount + 1;
      actualFileSize := actualFileSize + |chunk.data|;
      encodedFileSize := encodedFileSize + chunk.encodedSize;
      links := links + [LinkOf(chunk)];
    }

    method ChunkUploaded(chunk: Chunk)
      modifies this`preCreatedChunks
      ensures Value() == Uploaded(old(Value()), chunk)
      ensures forall i :: i in preCreatedChunks <==> i in old(preCreatedChunks) && i != chunk.index
      ensures forall i :: i in preCreatedChunks ==> preCreatedChunks[i] == old(preCreatedChunks)[i]
    {
      preCreatedChunks := preCreatedChunks - {chunk.index};
    }

    method ListPreCreatedChunks() returns (res: seq<ChunkWithTx>)
      ensures res == Listed(preCreatedChunks)
    {
      var keys := Sorted(preCreatedChunks.Keys);
      res := [];
      for i := 0 to |keys|
        invariant res == Listed(preCreatedChunks)[..i]
      {
        if keys[i] in preCreatedChunks {
          TailCons(Listed(preCreatedChunks), i);
          res := res + [preCreatedChunks[keys[i]]];
        }
      }
    }
  }

  // ---- what is recorded, as sums and pieces

  function Payloads(chunks: seq<Chunk>): seq<Bytes> {
    seq(|chunks|, i requires 0 <= i < |chunks| => chunks[i].data)
  }

  function ActualSize(chunks: seq<Chunk>): nat {
    if chunks == [] then 0 else ActualSize(chunks[..|chunks| - 1]) + |chunks[|chunks| - 1].data|
  }

  function EncodedSize(chunks: seq<Chunk>): nat {
    if chunks == [] then 0 else EncodedSize(chunks[..|chunks| - 1]) + chunks[|chunks| - 1].encodedSize
  }

  lemma SizesSnoc(chunks: seq<Chunk>, c: Chunk)
    ensures ActualSize(chunks + [c]) == ActualSize(chunks) + |c.data|
    ensures EncodedSize(chunks + [c]) == EncodedSize(chunks) + c.encodedSize
    ensures Payloads(chunks + [c]) == Payloads(chunks) + [c.data]
  {
  }
}
