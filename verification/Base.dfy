/** Bytes, big-endian integers, Go-style outcomes, and copying inside one buffer. */
module Base {

  type byte = x: int | 0 <= x < 256

  datatype Option<+T> = None | Some(value: T)

  /** The reasons for which the modelled operations return an error. */
  datatype Failure =
    | EmptyPlaintext
    | BufferTooSmall
    | NoCipher
    | NoRandomness
    | HeaderTooShort
    | VersionMismatch
    | NotAuthentic
    | TargetTooSmall
    | TargetNotAligned
    | UnexpectedEof
    | ShortData
    | ShardCount
    | ShardSize
    | ShardNoData
    | TooFewShards
    | Corrupted
    | ShortBuffer
    | MissingSuffix
    | BlockCount
    | MemtreeSize
    | LeafIndex
    | MalformedBlock

  /** What a Go call may do: return a value, return an error, or stop with a run-time panic
      (an index or slice bound out of range). */
  datatype Outcome<+T> = Ok(value: T) | Err(error: Failure) | Panic

  function Min(a: int, b: int): int { if a < b then a else b }

  /** encryption.CeilDiv, on the positive operands it asks for. */
  function CeilDiv(a: nat, b: nat): nat
    requires b > 0
  {
    (a + b - 1) / b
  }

  function Zeros(n: nat): (z: seq<byte>)
    ensures |z| == n
    ensures forall i :: 0 <= i < n ==> z[i] == 0
  {
    seq(n, _ => 0)
  }

  // ---- big-endian integers (encoding/binary.BigEndian)

  function Pow256(w: nat): (r: nat)
    ensures r > 0
  {
    if w == 0 then 1 else 256 * Pow256(w - 1)
  }

  lemma Pow256Values()
    ensures Pow256(4) == 0x1_0000_0000
    ensures Pow256(8) == 0x1_0000_0000_0000_0000
  {
  }

  function PutBE(n: nat, w: nat): (s: seq<byte>)
    ensures |s| == w
  {
    if w == 0 then [] else PutBE(n / 256, w - 1) + [n % 256]
  }

  function GetBE(s: seq<byte>): nat
  {
    if s == [] then 0 else 256 * GetBE(s[..|s| - 1]) + s[|s| - 1]
  }

  lemma {:induction false} PutThenGet(n: nat, w: nat)
    requires n < Pow256(w)
    ensures GetBE(PutBE(n, w)) == n
  {
    if w == 0 {
    } else {
      PutThenGet(n / 256, w - 1);
      var s := PutBE(n, w);
      assert s[..w - 1] == PutBE(n / 256, w - 1);
    }
  }

  lemma {:induction false} GetThenPut(s: seq<byte>)
    ensures GetBE(s) < Pow256(|s|)
    ensures PutBE(GetBE(s), |s|) == s
  {
    if s == [] {
    } else {
      var t := s[..|s| - 1];
      GetThenPut(t);
      assert GetBE(s) / 256 == GetBE(t) && GetBE(s) % 256 == s[|s| - 1];
      assert s == t + [s[|s| - 1]];
    }
  }

  /** What four bytes mean as an integer, the most significant first. */
  function Word(s: seq<byte>): (n: nat)
    requires |s| == 4
    ensures n < 0x1_0000_0000
  {
    (s[0] as int) * 16777216 + (s[1] as int) * 65536 + (s[2] as int) * 256 + s[3]
  }

  lemma LastByte(s: seq<byte>)
    requires s != []
    ensures GetBE(s) == 256 * GetBE(s[..|s| - 1]) + s[|s| - 1]
  {
  }

  lemma GetBEIsWord(s: seq<byte>)
    requires |s| == 4
    ensures GetBE(s) == Word(s)
  {
    hide GetBE;
    assert s[..3][..2] == s[..2] && s[..3][2] == s[2];
    assert s[..2][..1] == s[..1] && s[..2][1] == s[1];
    assert s[..1][..0] == [] && s[..1][0] == s[0];
    LastByte(s);
    LastByte(s[..3]);
    LastByte(s[..2]);
    LastByte(s[..1]);
    GetThenPutEmpty();
  }

  lemma GetThenPutEmpty()
    ensures GetBE([]) == 0
  {
  }

  lemma PutBEIsWord(n: nat)
    requires n < 0x1_0000_0000
    ensures Word(PutBE(n, 4)) == n
  {
    hide PutBE, GetBE, Word;
    Pow256Values();
    PutThenGet(n, 4);
    GetBEIsWord(PutBE(n, 4));
  }

  lemma Times256(a: nat, b: nat)
    ensures a * (256 * b) == 256 * (a * b)
  {
  }

  lemma {:induction false} GetBEConcat(a: seq<byte>, b: seq<byte>)
    ensures GetBE(a + b) == GetBE(a) * Pow256(|b|) + GetBE(b)
  {
    hide GetBE;
    if b == [] {
      assert a + b == a;
      GetThenPutEmpty();
    } else {
      var c, x := b[..|b| - 1], b[|b| - 1];
      assert (a + b)[..|a + b| - 1] == a + c;
      assert (a + b)[|a + b| - 1] == x;
      GetBEConcat(a, c);
      LastByte(a + b);
      LastByte(b);
      Times256(GetBE(a), Pow256(|c|));
    }
  }

  /** Eight bytes: two words, the more significant first. */
  lemma GetBEIsTwoWords(s: seq<byte>)
    requires |s| == 8
    ensures GetBE(s) == Word(s[..4]) * 0x1_0000_0000 + Word(s[4..])
  {
    hide GetBE, Pow256, Word;
    Pow256Values();
    assert s == s[..4] + s[4..];
    GetBEConcat(s[..4], s[4..]);
    GetBEIsWord(s[..4]);
    GetBEIsWord(s[4..]);
  }

  // ---- what comes before the bytes of an outcome

  function Prepend(x: seq<byte>, rest: Outcome<seq<byte>>): Outcome<seq<byte>> {
    match rest
    case Panic => Panic
    case Err(e) => Err(e)
    case Ok(y) => Ok(x + y)
  }

  lemma PrependNothing(rest: Outcome<seq<byte>>)
    ensures Prepend([], rest) == rest
  {
    if rest.Ok? {
      assert [] + rest.value == rest.value;
    }
  }

  lemma PrependTwice(x: seq<byte>, y: seq<byte>, rest: Outcome<seq<byte>>)
    ensures Prepend(x, Prepend(y, rest)) == Prepend(x + y, rest)
  {
    if rest.Ok? {
      assert x + (y + rest.value) == x + y + rest.value;
    }
  }

  // ---- one buffer, written in place

  /** The buffer `a` after `s` has been written at `at`. */
  function Splice(a: seq<byte>, at: nat, s: seq<byte>): (r: seq<byte>)
    requires at + |s| <= |a|
    ensures |r| == |a|
  {
    a[..at] + s + a[at + |s|..]
  }

  /** A write leaves what lies before and after it, and puts `s` in its place. */
  lemma SpliceParts(a: seq<byte>, at: nat, s: seq<byte>, lo: nat, hi: nat)
    requires lo <= at && at + |s| <= hi <= |a|
    ensures Splice(a, at, s)[..lo] == a[..lo]
    ensures Splice(a, at, s)[hi..] == a[hi..]
    ensures Splice(a, at, s)[at..at + |s|] == s
    ensures Splice(a, at, s)[at..hi] == s + a[at + |s|..hi]
  {
  }

  /** Writes `s` into `buf` at `at`: a Go `copy` from another slice, or a sealing call with `buf` as destination. */
  method Write(buf: array<byte>, at: nat, s: seq<byte>)
    requires at + |s| <= buf.Length
    modifies buf
    ensures buf[..] == Splice(old(buf[..]), at, s)
  {
    forall k | 0 <= k < |s| {
      buf[at + k] := s[k];
    }
    assert forall k :: 0 <= k < at ==> buf[..][k] == old(buf[..])[k];
    assert forall k :: at + |s| <= k < buf.Length ==> buf[..][k] == old(buf[..])[k];
  }

  /** Go's `copy` inside one buffer: the source is read as it was before the call, also where the ranges overlap. */
  method Move(buf: array<byte>, dst: nat, src: nat, n: nat)
    requires dst + n <= buf.Length && src + n <= buf.Length
    modifies buf
    ensures buf[..] == Splice(old(buf[..]), dst, old(buf[src..src + n]))
  {
    forall k | 0 <= k < n {
      buf[dst + k] := buf[src + k];
    }
    assert forall k :: 0 <= k < dst ==> buf[..][k] == old(buf[..])[k];
    assert forall k :: dst + n <= k < buf.Length ==> buf[..][k] == old(buf[..])[k];
  }
}
