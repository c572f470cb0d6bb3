/** Reading from a stream that gives as much as it likes at a time: skipping to a position and filling a buffer,
    as every upload loop does. */
module FileReader {
  import opened Base

  datatype ReadError = NoError | Eof | OtherError

  /** Any well-behaved reader: each read gives some of the bytes that come next, and reports the end only when
      no more are left, then or in later reads. How many bytes a read gives and what it reports is up to the
      reader, here to the arguments `ready` and `report`. */
  class Source {
    const content: seq<byte>
    var pos: nat

    ghost predicate Valid()
      reads this
    {
      pos <= |content|
    }

    constructor (content: seq<byte>)
      ensures Valid() && this.content == content && pos == 0
    {
      this.content, pos := content, 0;
    }

    /** Reads up to `len` bytes into p from `at` on. */
    method Read(p: array<byte>, at: nat, len: nat, ready: nat, report: ReadError) returns (n: nat, err: ReadError)
      requires Valid() && at + len <= p.Length
      modifies `pos, p
      ensures Valid() && n == Min(Min(ready, len), |content| - old(pos)) && pos == old(pos) + n
      ensures err == if report == Eof && pos < |content| then NoError else report
      ensures p[..at] == old(p[..at]) && p[at..at + n] == content[old(pos)..pos] && p[at + n..] == old(p[at + n..])
    {
      n := Min(Min(ready, len), |content| - pos);
      forall i | 0 <= i < n {
        p[at + i] := content[pos + i];
      }
      pos := pos + n;
      err := if report == Eof && pos < |content| then NoError else report;
    }
  }

  /** What a reader decides at its k-th read: how many bytes are ready, at least one, and whether it fails. */
  datatype Decision = Decision(ready: nat, fails: bool)

  type Decisions = nat -> Decision

  /** readUpTo: fills the buffer unless the stream ends or fails first. It reports the end exactly when the
      buffer has room and nothing was left, and then gives nothing. */
  method ReadUpTo(r: Source, buf: array<byte>, decide: Decisions)
    returns (n: nat, err: ReadError, ghost calls: nat)
    requires r.Valid()
    modifies r`pos, buf
    ensures r.Valid() && r.pos == old(r.pos) + n && n <= buf.Length
    ensures buf[..n] == r.content[old(r.pos)..r.pos] && buf[n..] == old(buf[n..])
    ensures err != OtherError ==> n == Min(buf.Length, |r.content| - old(r.pos))
    ensures err == Eof <==> n == 0 && buf.Length > 0 && old(r.pos) == |r.content| && err != OtherError
    ensures forall k: nat :: k + 1 < calls ==> !decide(k).fails
    ensures err == OtherError <==> calls > 0 && decide(calls - 1).fails && n < buf.Length
  {
    ghost var from, before := r.pos, buf[..];
    n, err := 0, NoError;
    var k: nat := 0;
    while n < buf.Length && err == NoError
      invariant r.Valid() && n <= buf.Length && r.pos == from + n
      invariant buf[..n] == r.content[from..r.pos] && buf[n..] == before[n..]
      invariant err == Eof ==> r.pos == |r.content|
      invariant forall j: nat :: j + 1 < k ==> !decide(j).fails
      invariant err == OtherError <==> k > 0 && decide(k - 1).fails
      decreases buf.Length - n, if err == NoError then 1 else 0
    {
      var d := decide(k);
      var nn;
      ghost var done := buf[..n];
      nn, err := r.Read(buf, n, buf.Length - n, d.ready + 1, if d.fails then OtherError else Eof);
      assert buf[..n + nn] == done + buf[n..n + nn];
      assert done + r.content[from + n..r.pos] == r.content[from..r.pos];
      assert buf[n + nn..] == before[n + nn..];
      n, k := n + nn, k + 1;
    }
    calls := k;
    if n >= buf.Length {
      err := NoError;
    } else if n > 0 && err == Eof {
      err := NoError;
    }
  }

  /** skipToPosition: by seeking, or by reading and discarding; the end of the stream is no error. */
  method SkipToPosition(r: Source, position: nat, seekable: bool, seekFails: bool, decide: Decisions)
    returns (ok: bool, ghost calls: nat)
    requires r.Valid() && r.pos == 0
    modifies r`pos
    ensures r.Valid()
    ensures ok ==> r.pos == Min(position, |r.content|)
    ensures position > 0 && seekable ==> calls == 0 && ok == !seekFails
    ensures position == 0 ==> calls == 0 && ok
    ensures forall k: nat :: k + 1 < calls ==> !decide(k).fails
    ensures position > 0 && !seekable ==> (!ok <==> calls > 0 && decide(calls - 1).fails && r.pos < position)
  {
    calls := 0;
    if position > 0 {
      if seekable {
        if seekFails {
          ok := false;
          return;
        }
        r.pos := Min(position, |r.content|);
      } else {
        var scratch := new byte[32768];
        var left, err := position, NoError;
        var k: nat := 0;
        while left > 0 && err == NoError
          invariant r.Valid() && 0 <= left <= position && r.pos == position - left
          invariant err == Eof ==> r.pos == |r.content|
          invariant forall j: nat :: j + 1 < k ==> !decide(j).fails
          invariant err == OtherError <==> k > 0 && decide(k - 1).fails
          decreases left, if err == NoError then 1 else 0
        {
          var d := decide(k);
          var n;
          n, err := r.Read(scratch, 0, Min(left, scratch.Length), d.ready + 1, if d.fails then OtherError else Eof);
          left, k := left - n, k + 1;
        }
        calls := k;
        if left > 0 && err == OtherError {
          ok := false;
          return;
        }
      }
    }
    ok := true;
  }
}
