/** PaddedReader: a reader that delivers exactly a given number of bytes, cutting its source off or padding it
    with zeros. */
module PaddedReader {
  import opened Base
  import opened FileReader

  /** The bytes a reader over `content` with the given total has to deliver. */
  function Target(content: seq<byte>, total: int): (t: seq<byte>)
    ensures |t| == if total < 0 then 0 else total
    ensures forall i :: 0 <= i < |t| ==> t[i] == if i < |content| then content[i] else 0
  {
    if total < 0 then [] else if total <= |content| then content[..total] else content + Zeros(total - |content|)
  }

  method ZeroFill(p: array<byte>, from: nat, to: nat)
    requires from <= to <= p.Length
    modifies p
    ensures p[..to] == old(p[..from]) + Zeros(to - from) && p[to..] == old(p[to..])
  {
    for i := from to to
      invariant p[..from] == old(p[..from]) && p[to..] == old(p[to..])
      invariant forall j :: from <= j < i ==> p[j] == 0
    {
      p[i] := 0;
    }
    assert p[..to] == p[..from] + p[from..to];
  }

  /** What comes next: bytes of the source as long as it has some, then zeros. */
  lemma NextBytes(content: seq<byte>, total: int, before: seq<byte>, pos: nat, end: nat, n: nat)
    requires before <= Target(content, total) && |before| + n <= total
    requires pos == Min(|before|, |content|) && pos <= end <= |content|
    requires end - pos <= n && (end - pos < n ==> end == |content|)
    ensures end == Min(|before| + n, |content|)
    ensures before + (content[pos..end] + Zeros(n - (end - pos))) <= Target(content, total)
  {
  }

  lemma SameSuffix(a: seq<byte>, b: seq<byte>, limit: nat, len: nat)
    requires limit <= len <= |a| == |b| && a[limit..] == b[limit..]
    ensures a[len..] == b[len..]
  {
    assert a[len..] == a[limit..][len - limit..];
  }

  /** One read of the source, with the rest of the space zeroed when the source reports its end. */
  method ReadOrPad(r: Source, p: array<byte>, limit: nat, ready: nat, report: ReadError)
    returns (n: nat, err: ReadError)
    requires r.Valid() && limit <= p.Length
    modifies r`pos, p
    ensures r.Valid() && old(r.pos) <= r.pos && r.pos - old(r.pos) <= n <= limit
    ensures p[..n] == r.content[old(r.pos)..r.pos] + Zeros(n - (r.pos - old(r.pos))) && p[limit..] == old(p[limit..])
    ensures r.pos - old(r.pos) < n ==> r.pos == |r.content|
    ensures err != Eof && (err == OtherError <==> report == OtherError)
    ensures r.pos - old(r.pos) == Min(Min(ready, limit), |r.content| - old(r.pos))
    ensures n == if report == Eof && r.pos == |r.content| then limit else r.pos - old(r.pos)
    ensures 0 < limit && ready > 0 && report == Eof ==> n > 0
  {
    ghost var rest := p[limit..];
    ghost var before := p[..];
    n, err := r.Read(p, 0, limit, ready, report);
    assert p[limit..] == p[n..][limit - n..] == before[n..][limit - n..] == rest;
    if err == Eof {
      var padding := limit - n;
      ZeroFill(p, n, n + padding);
      n, err := limit, NoError;
    }
  }

  lemma MinIs(a: int, b: int)
    ensures Min(a, b) == if a > b then b else a
  {
  }

  /** The reader. `produced` is history: what its reads have delivered so far. */
  class PaddedReader {
    const r: Source
    const total: int
    var read: nat
    ghost var produced: seq<byte>

    /** What was delivered is the beginning of what has to be, and the source is where that beginning ends. */
    ghost predicate Valid()
      reads this, r
    {
      && r.Valid()
      && read == |produced| && produced <= Target(r.content, total)
      && r.pos == Min(read, |r.content|)
    }

    constructor (r: Source, total: int)
      requires r.Valid() && r.pos == 0
      ensures Valid() && this.r == r && this.total == total && produced == []
    {
      this.r, this.total, read, produced := r, total, 0, [];
    }

    /** Whatever the sizes of the reads and whatever the source gives at each: the bytes delivered stay a
        prefix of the target, never more than `total` of them, the end is reported only when all are
        delivered, and then nothing else. A source that gives something or reports the end makes every read
        deliver something. */
    method Read(p: array<byte>, len: nat, ready: nat, report: ReadError) returns (n: nat, err: ReadError)
      requires Valid() && len <= p.Length
      modifies `read, `produced, r`pos, p
      ensures Valid()
      ensures n <= len && produced == old(produced) + p[..n] && p[len..] == old(p[len..])
      ensures err == Eof <==> old(read) >= total
      ensures err == Eof ==> n == 0 && produced == Target(r.content, total)
      ensures err == OtherError <==> report == OtherError && old(read) < total
      ensures old(read) < total ==>
                var got := r.pos - old(r.pos);
                && got == Min(Min(ready, Min(len, total - old(read))), |r.content| - old(r.pos))
                && n == if report == Eof && r.pos == |r.content| then Min(len, total - old(read)) else got
      ensures 0 < len && err == NoError && ready > 0 && report == Eof ==> n > 0
    {
      hide Target, Min, Zeros;
      if read >= total {
        assert p[..0] == [];
        return 0, Eof;
      }
      var remaining := total - read;
      var limit := if len > remaining then remaining else len;
      MinIs(len, remaining);
      ghost var before, pos := p[..], r.pos;
      n, err := ReadOrPad(r, p, limit, ready, report);
      NextBytes(r.content, total, produced, pos, r.pos, n);
      SameSuffix(p[..], before, limit, len);
      read := read + n;
      produced := produced + p[..n];
    }
  }
}
