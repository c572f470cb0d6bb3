/** Cutting a byte string into consecutive pieces of one size, the last one possibly shorter.
    The upload read loop, SplitStripes and the DAG's size splitter all cut in this way. */
module Pieces {
  import opened Base

  type Bytes = seq<byte>

  function Cut(f: Bytes, size: nat): (ps: seq<Bytes>)
    requires size > 0
    decreases |f|
  {
    if |f| == 0 then [] else
      var n := Min(size, |f|);
      [f[..n]] + Cut(f[n..], size)
  }

  function Flatten(ps: seq<Bytes>): Bytes
  {
    if ps == [] then [] else ps[0] + Flatten(ps[1..])
  }

  lemma Associative(x: Bytes, y: Bytes, z: Bytes)
    ensures x + (y + z) == x + y + z
  {
  }

  lemma {:induction false} FlattenConcat(a: seq<Bytes>, b: seq<Bytes>)
    ensures Flatten(a + b) == Flatten(a) + Flatten(b)
  {
    if a == [] {
      assert a + b == b;
    } else {
      FlattenConcat(a[1..], b);
      assert (a + b)[1..] == a[1..] + b;
      Associative(a[0], Flatten(a[1..]), Flatten(b));
    }
  }

  lemma FlattenSnoc(a: seq<Bytes>, x: Bytes)
    ensures Flatten(a + [x]) == Flatten(a) + x
  {
    FlattenConcat(a, [x]);
    assert Flatten([x]) == x + Flatten([][..]);
    assert [x][1..] == [];
  }

  /** Putting the pieces back together gives the original. */
  lemma {:induction false} FlattenCut(f: Bytes, size: nat)
    requires size > 0
    ensures Flatten(Cut(f, size)) == f
    decreases |f|
  {
    if |f| == 0 {
    } else {
      var n := Min(size, |f|);
      FlattenCut(f[n..], size);
      assert Cut(f, size)[1..] == Cut(f[n..], size);
      assert f == f[..n] + f[n..];
    }
  }

  /** The other way round: blocks of exactly the cutting size survive concatenation and cutting. */
  lemma {:induction false} CutFlatten(ps: seq<Bytes>, size: nat)
    requires size > 0
    requires forall p :: p in ps ==> |p| == size
    ensures Cut(Flatten(ps), size) == ps
  {
    if ps == [] {
    } else {
      CutFlatten(ps[1..], size);
      var f := Flatten(ps);
      assert |ps[0]| == size;
      assert f[..size] == ps[0] && f[size..] == Flatten(ps[1..]);
    }
  }

  /** Piece k covers exactly the bytes from k*size up to (k+1)*size or the end, and there are
      ceil(|f| / size) pieces. */
  lemma CutAt(f: Bytes, size: nat, k: nat)
    requires size > 0
    ensures |Cut(f, size)| == CeilDiv(|f|, size)
    ensures k < |Cut(f, size)| ==> 0 <= k * size < |f| && Cut(f, size)[k] == f[k * size..Min(k * size + size, |f|)]
  {
    CutCount(f, size);
    if k < |Cut(f, size)| {
      CutPiece(f, size, k, k * size);
    }
  }

  lemma {:induction false} CutCount(f: Bytes, size: nat)
    requires size > 0
    ensures |Cut(f, size)| == CeilDiv(|f|, size)
    decreases |f|
  {
    if |f| <= size {
      CeilDivSmall(|f|, size);
      assert f[|f|..] == [];
    } else {
      CeilDivStep(|f|, size);
      CutCount(f[size..], size);
    }
  }

  lemma {:induction false} CutPiece(f: Bytes, size: nat, k: nat, lo: nat)
    requires size > 0 && k < |Cut(f, size)| && lo == k * size
    ensures lo < |f| && Cut(f, size)[k] == f[lo..Min(lo + size, |f|)]
    decreases k
  {
    var n := Min(size, |f|);
    if k == 0 {
      assert 0 * size == 0;
      assert lo == 0 && |f| > 0;
      assert Cut(f, size) == [f[..n]] + Cut(f[n..], size);
    } else {
      var g := f[n..];
      assert lo - size == (k - 1) * size;
      CutPiece(g, size, k - 1, lo - size);
      assert Cut(f, size)[k] == Cut(g, size)[k - 1];
    }
  }

  /** No piece is empty, and none is longer than the size. */
  lemma {:induction false} CutSizes(f: Bytes, size: nat)
    requires size > 0
    ensures forall p :: p in Cut(f, size) ==> 0 < |p| <= size
    ensures [] !in Cut(f, size)
    decreases |f|
  {
    if |f| == 0 {
      assert Cut(f, size) == [];
    } else {
      var n := Min(size, |f|);
      CutSizes(f[n..], size);
      var more := Cut(f[n..], size);
      forall p | p in Cut(f, size)
        ensures 0 < |p| <= size
      {
        assert p == f[..n] || p in more;
      }
    }
  }

  lemma CeilDivSmall(a: nat, b: nat)
    requires a <= b && b > 0
    ensures CeilDiv(a, b) == if a == 0 then 0 else 1
  {
  }

  lemma CeilDivStep(a: nat, b: nat)
    requires a > b > 0
    ensures CeilDiv(a, b) == 1 + CeilDiv(a - b, b)
  {
    var q := CeilDiv(a - b, b);
    var r := (a - 1) % b;
    assert a - 1 == q * b + r;
    assert (q + 1) * b == q * b + b;
    DivIs(a + b - 1, b, q + 1);
  }

  /** Euclidean division is determined by its bounds. */
  lemma DivIs(a: nat, b: nat, q: nat)
    requires b > 0
    requires q * b <= a < q * b + b
    ensures a / b == q
  {
    var p := a / b;
    assert p * b <= a < p * b + b;
    MulMono(p + 1, q, b);
    MulMono(q + 1, p, b);
  }

  lemma MulMono(a: nat, b: nat, c: nat)
    ensures a <= b ==> a * c <= b * c
    ensures (a + 1) * c == a * c + c
  {
  }

  lemma CeilDivBounds(a: nat, b: nat)
    requires b > 0
    ensures a <= b * CeilDiv(a, b) < a + b
  {
  }

  /** A string of n times the piece size is cut into n full pieces. */
  lemma {:induction false} CutExact(f: Bytes, size: nat, n: nat)
    requires size > 0 && |f| == n * size
    ensures |Cut(f, size)| == n
    ensures forall p :: p in Cut(f, size) ==> |p| == size
  {
    if n == 0 {
    } else {
      MulMono(n - 1, n - 1, size);
      CutExact(f[size..], size, n - 1);
    }
  }

  lemma {:induction false} FlattenLength(ps: seq<Bytes>, size: nat)
    requires forall p :: p in ps ==> |p| == size
    ensures |Flatten(ps)| == |ps| * size
  {
    if ps == [] {
    } else {
      FlattenLength(ps[1..], size);
      MulMono(|ps| - 1, |ps|, size);
    }
  }

  lemma CutOne(f: Bytes, size: nat)
    requires 0 < |f| <= size
    ensures Cut(f, size) == [f]
  {
    assert f[..|f|] == f && f[|f|..] == [];
  }

  lemma TailCons<T>(s: seq<T>, m: nat)
    requires m < |s|
    ensures s[m..] == [s[m]] + s[m + 1..]
    ensures s[m..][0] == s[m] && s[m..][1..] == s[m + 1..]
    ensures s[..m + 1] == s[..m] + [s[m]]
  {
  }

  // ---- results one after another

  /** The bytes of results one after another, if every one succeeds, or what the first does that does not. */
  function Written(results: seq<Outcome<Bytes>>): Outcome<Bytes> {
    if results == [] then Ok([])
    else
      match Written(results[..|results| - 1])
      case Panic => Panic
      case Err(e) => Err(e)
      case Ok(before) =>
        match results[|results| - 1]
        case Panic => Panic
        case Err(e) => Err(e)
        case Ok(data) => Ok(before + data)
  }

  lemma WrittenNext(results: seq<Outcome<Bytes>>, k: nat)
    requires k < |results| && Written(results[..k]).Ok?
    ensures Written(results[..k + 1]) ==
            match results[k]
            case Panic => Panic
            case Err(e) => Err(e)
            case Ok(data) => Ok(Written(results[..k]).value + data)
  {
    assert results[..k + 1][..k] == results[..k];
  }

  lemma {:induction false} FailureStays(results: seq<Outcome<Bytes>>, k: nat)
    requires k <= |results| && !Written(results[..k]).Ok?
    ensures Written(results) == Written(results[..k])
  {
    if k < |results| {
      assert results[..|results| - 1][..k] == results[..k];
      FailureStays(results[..|results| - 1], k);
    } else {
      assert results[..k] == results;
    }
  }

  lemma {:induction false} AllWritten(results: seq<Outcome<Bytes>>, pieces: seq<Bytes>)
    requires |results| == |pieces| && forall k :: 0 <= k < |pieces| ==> results[k] == Ok(pieces[k])
    ensures Written(results) == Ok(Flatten(pieces))
  {
    if results == [] {
    } else {
      var n := |results| - 1;
      AllWritten(results[..n], pieces[..n]);
      FlattenSnoc(pieces[..n], pieces[n]);
      assert pieces == pieces[..n] + [pieces[n]];
    }
  }

  lemma NoneWritten(results: seq<Outcome<Bytes>>)
    ensures Written(results[..0]) == Ok([])
  {
  }

  /** The first result that is no success decides. */
  lemma FirstFailureDecides(results: seq<Outcome<Bytes>>, k: nat)
    requires k < |results| && !results[k].Ok? && forall i :: 0 <= i < k ==> results[i].Ok?
    ensures Written(results) == results[k]
  {
    var before := seq(k, i requires 0 <= i < k => results[i].value);
    AllWritten(results[..k], before);
    WrittenNext(results, k);
    FailureStays(results, k + 1);
  }

  /** The same from the front: the first result, and then the others. */
  lemma {:induction false} WrittenFront(results: seq<Outcome<Bytes>>)
    requires results != []
    ensures Written(results) == if results[0].Ok? then Prepend(results[0].value, Written(results[1..])) else results[0]
  {
    var n := |results| - 1;
    var last := results[n];
    if n == 0 {
      assert results[..0] == [] && results[1..] == [];
      if last.Ok? {
        assert [] + last.value == last.value == last.value + [];
      }
    } else {
      WrittenFront(results[..n]);
      assert results[..n][1..] == results[1..][..n - 1];
      if results[0].Ok? && Written(results[1..][..n - 1]).Ok? && last.Ok? {
        Associative(results[0].value, Written(results[1..][..n - 1]).value, last.value);
      }
    }
  }
}
