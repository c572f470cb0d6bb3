/** The Protocol Buffers wire format in bytes: what a varint, a tag, a length, a value and a group are, which byte strings
    are none, and what a leaf block looks like. */
module ProtoWire {
  import opened Base
  import opened Pieces
  import opened ProtoScan

  // ---- varints

  /** Groups of seven bits, the least significant first. */
  function Digits(s: Bytes): nat {
    if s == [] then 0 else s[0] % 128 + 128 * Digits(s[1..])
  }

  /** At most `left` bytes, all but the last one marked, the last possible one holding a single bit. */
  predicate IsVarint(s: Bytes, left: nat) {
    && 0 < |s| <= left
    && (forall i :: 0 <= i < |s| - 1 ==> s[i] >= 128)
    && s[|s| - 1] < 128
    && (|s| == left ==> s[|s| - 1] < 2)
  }

  lemma {:induction false} ReadVarintIff(b: Bytes, left: nat, v: nat, n: nat)
    requires left > 0
    ensures ReadVarint(b, left) == Some(Varint(v, n)) <==>
              n <= |b| && IsVarint(b[..n], left) && v == Digits(b[..n])
    decreases left
  {
    if b == [] {
    } else if left == 1 || b[0] < 128 {
      OneByteVarint(b, left, v, n);
    } else {
      var rest := ReadVarint(b[1..], left - 1);
      if 0 < n <= |b| {
        MoreBytesVarint(b, left, n);
        ReadVarintIff(b[1..], left - 1, Digits(b[..n][1..]), n - 1);
        if rest.Some? {
          ReadVarintIff(b[1..], left - 1, rest.value.value, rest.value.size);
        }
      }
    }
  }

  lemma OneByteVarint(b: Bytes, left: nat, v: nat, n: nat)
    requires left > 0 && b != [] && (left == 1 || b[0] < 128)
    ensures ReadVarint(b, left) == Some(Varint(v, n)) <==>
              n <= |b| && IsVarint(b[..n], left) && v == Digits(b[..n])
  {
    if n == 1 {
      assert b[..1] == [b[0]] && [b[0]][1..] == [];
    } else if 1 < n <= |b| {
      assert b[..n][0] == b[0];
    }
  }

  lemma MoreBytesVarint(b: Bytes, left: nat, n: nat)
    requires left > 1 && b != [] && b[0] >= 128 && n > 0
    ensures n <= |b| ==> b[..n][1..] == b[1..][..n - 1]
    ensures n <= |b| ==> (IsVarint(b[..n], left) <==> IsVarint(b[1..][..n - 1], left - 1))
    ensures n <= |b| ==> Digits(b[..n]) == b[0] - 128 + 128 * Digits(b[1..][..n - 1])
  {
    if n <= |b| {
      var s, t := b[..n], b[1..][..n - 1];
      assert s[1..] == t && s[0] == b[0];
      if n > 1 {
        assert forall i :: 0 <= i < |t| ==> t[i] == s[i + 1];
        assert forall i :: 1 <= i < |s| ==> s[i] == t[i - 1];
      }
    }
  }

  /** Exactly which byte strings start with which varint: up to ten bytes, the tenth at most 1. */
  lemma VarintIff(b: Bytes, v: nat, n: nat)
    ensures ConsumeVarint(b) == Some(Varint(v, n)) <==> n <= |b| && IsVarint(b[..n], 10) && v == Digits(b[..n])
  {
    ReadVarintIff(b, 10, v, n);
  }

  // ---- tags, lengths and values

  /** A tag is the varint of eight times the field number plus the wire type, the number between 1 and 2^31 - 1. */
  lemma TagIff(b: Bytes, num: nat, typ: nat, n: nat)
    ensures ConsumeTag(b) == Some(Tag(num, typ, n)) <==>
              typ < 8 && 1 <= num < 0x8000_0000 && ConsumeVarint(b) == Some(Varint(8 * num + typ, n))
  {
    hide ConsumeVarint;
    if ConsumeVarint(b).Some? {
      var v := ConsumeVarint(b).value.value;
      assert v == 8 * (v / 8) + v % 8;
    }
  }

  /** A length-prefixed value is the varint of a length and as many bytes, all of them there. */
  lemma LengthIff(b: Bytes, length: nat, n: nat)
    ensures ConsumeBytes(b) == Some(Varint(length, n)) <==>
              length <= n <= |b| && ConsumeVarint(b) == Some(Varint(length, n - length))
  {
    hide ConsumeVarint;
  }

  /** How long a value is by its wire type: 0 a varint, 1 eight bytes, 2 a length and its bytes, 3 a group, 5 four bytes;
      there are no others. */
  lemma ValueIff(num: nat, typ: nat, b: Bytes, depth: nat, n: nat)
    ensures ConsumeFieldValue(num, typ, b, depth) == Some(n) <==>
              || (typ == 0 && exists v :: ConsumeVarint(b) == Some(Varint(v, n)))
              || (typ == 1 && n == 8 <= |b|)
              || (typ == 2 && exists length :: ConsumeBytes(b) == Some(Varint(length, n)))
              || (typ == 3 && ConsumeGroup(num, b, depth) == Some(n))
              || (typ == 5 && n == 4 <= |b|)
  {
    hide ConsumeVarint, ConsumeBytes, ConsumeGroup;
    if typ == 0 && ConsumeVarint(b).Some? {
      assert ConsumeVarint(b) == Some(Varint(ConsumeVarint(b).value.value, ConsumeVarint(b).value.size));
    }
    if typ == 2 && ConsumeBytes(b).Some? {
      assert ConsumeBytes(b) == Some(Varint(ConsumeBytes(b).value.value, ConsumeBytes(b).value.size));
    }
  }

  // ---- groups

  function EndTag(num: nat): Bytes { PutVarint(8 * num + 4) }

  function StartTag(num: nat): Bytes { PutVarint(8 * num + 3) }

  /** A group is its fields up to an end tag of its own number; under another number it is malformed. */
  lemma {:induction false} GroupEnds(num: nat, fields: seq<Field>, other: nat, tail: Bytes, depth: nat)
    requires 1 <= num < 0x8000_0000 && 1 <= other < 0x8000_0000
    requires forall f :: f in fields ==> Plain(f)
    ensures var body := PutFields(fields) + EndTag(other);
            ConsumeGroup(num, body + tail, depth) == if other == num then Some(|body|) else None
    decreases |fields|
  {
    hide Plain, ConsumeTag, PutVarint, PutField, PutFields, ConsumeGroup, ConsumeFieldValue;
    var body := PutFields(fields) + EndTag(other);
    if fields == [] {
      NoFieldsBytes();
      assert body + tail == EndTag(other) + tail;
      EndTagRead(other, tail);
      GroupTurnEnd(num, body + tail, depth);
    } else {
      var f, more := fields[0], PutFields(fields[1..]) + EndTag(other);
      GroupEnds(num, fields[1..], other, tail, depth);
      FieldsFirst(fields, EndTag(other), tail);
      PlainIsNoGroup(f);
      TagRoundTrip(f, FieldValue(f) + (more + tail));
      FieldParts(f, more + tail);
      PlainDepth(f, more + tail, if depth == 0 then 0 else depth - 1);
      GroupTurn(num, body + tail, depth, f, more + tail);
    }
  }

  lemma NoFieldsBytes()
    ensures PutFields([]) == []
  {
  }

  lemma EndTagRead(num: nat, tail: Bytes)
    requires 1 <= num < 0x8000_0000
    ensures ConsumeTag(EndTag(num) + tail) == Some(Tag(num, 4, |EndTag(num)|))
  {
    TagRoundTrip(Field(num, 4, []), tail);
  }

  lemma GroupTurnEnd(num: nat, b: Bytes, depth: nat)
    requires ConsumeTag(b).Some? && ConsumeTag(b).value.typ == 4
    ensures ConsumeGroup(num, b, depth)
         == if ConsumeTag(b).value.num == num then Some(ConsumeTag(b).value.size) else None
  {
    hide ConsumeTag;
  }

  lemma FieldsFirst(fields: seq<Field>, end: Bytes, tail: Bytes)
    requires fields != []
    ensures PutFields(fields) + end + tail == PutField(fields[0]) + (PutFields(fields[1..]) + end + tail)
    ensures |PutFields(fields)| == |PutField(fields[0])| + |PutFields(fields[1..])|
  {
    hide PutField, PutFields;
    FieldsUnfolded(fields);
    var x, y := PutField(fields[0]), PutFields(fields[1..]);
    Associative(x, y, end);
    Associative(x, y + end, tail);
  }

  lemma FieldsUnfolded(fields: seq<Field>)
    requires fields != []
    ensures PutFields(fields) == PutField(fields[0]) + PutFields(fields[1..])
  {
    hide PutField;
  }

  lemma PlainIsNoGroup(f: Field)
    requires Plain(f)
    ensures 1 <= f.num < 0x8000_0000 && f.typ < 8 && f.typ != 3 && f.typ != 4
  {
    hide PutVarint;
  }

  /** The depth makes no difference to a field that is no group. */
  lemma PlainDepth(f: Field, tail: Bytes, depth: nat)
    requires Plain(f)
    ensures ConsumeFieldValue(f.num, f.typ, FieldValue(f) + tail, depth) == Some(|FieldValue(f)|)
  {
    hide ConsumeVarint, ConsumeBytes, ConsumeGroup, Plain, FieldValue;
    ValueRoundTrip(f, tail);
    PlainIsNoGroup(f);
  }

  lemma GroupTurn(num: nat, b: Bytes, depth: nat, f: Field, more: Bytes)
    requires b == PutField(f) + more && |PutField(f)| == |PutVarint(8 * f.num + f.typ)| + |FieldValue(f)|
    requires PutField(f) + more == PutVarint(8 * f.num + f.typ) + (FieldValue(f) + more)
    requires ConsumeTag(b) == Some(Tag(f.num, f.typ, |PutVarint(8 * f.num + f.typ)|)) && f.typ != 3 && f.typ != 4
    requires ConsumeFieldValue(f.num, f.typ, FieldValue(f) + more, if depth == 0 then 0 else depth - 1)
          == Some(|FieldValue(f)|)
    ensures ConsumeGroup(num, b, depth) ==
            match ConsumeGroup(num, more, depth) case None => None case Some(m) => Some(|PutField(f)| + m)
  {
    hide ConsumeTag, PutVarint, PutField, FieldValue, ConsumeFieldValue;
    var t := PutVarint(8 * f.num + f.typ);
    assert b[|t|..] == FieldValue(f) + more;
    assert b[|PutField(f)|..] == more;
  }

  /** At the depth limit a nested group is malformed, whatever it holds. */
  lemma DepthLimited(num: nat, inner: nat, rest: Bytes)
    requires 1 <= inner < 0x8000_0000
    ensures ConsumeGroup(num, StartTag(inner) + rest, 0) == None
  {
    TagRoundTrip(Field(inner, 3, []), rest);
  }

  // ---- messages and blocks

  /** Nothing is found behind a malformed field. */
  lemma ScanStops(before: seq<Field>, num: nat, tail: Bytes)
    requires forall f :: f in before ==> Plain(f) && !(f.num == num && f.typ == BYTES_TYPE)
    requires NextField(tail) == None
    ensures FirstWith(FieldsOf(PutFields(before) + tail).0, num) == None
  {
    hide Plain, NextField, PutFields, FieldsOf;
    FieldsRoundTrip(before, tail);
    FieldsUnfold(tail);
    assert before + [] == before;
    FirstPast(before, [], num);
    NoFirst(num);
  }

  /** The bytes of a leaf: field 1 of the node, holding type 2, the payload as field 2, and its length as field 3. */
  lemma LeafBytes(payload: Bytes)
    ensures var inner := [8, 2] + ([18] + PutVarint(|payload|) + payload) + ([24] + PutVarint(|payload|));
            Leaf(payload) == [10] + PutVarint(|inner|) + inner
  {
    hide PutVarint;
    SmallVarint(2);
    SmallVarint(8);
    SmallVarint(10);
    SmallVarint(18);
    SmallVarint(24);
    var all := UnixFsFields(payload);
    ThreeFields(all[0], all[1], all[2]);
    assert PutField(all[0]) == [8] + [] + [2] == [8, 2];
    assert PutField(all[1]) == [18] + PutVarint(|payload|) + payload;
    assert PutField(all[2]) == [24] + [] + PutVarint(|payload|) == [24] + PutVarint(|payload|);
    var inner := [8, 2] + ([18] + PutVarint(|payload|) + payload) + ([24] + PutVarint(|payload|));
    var f := Field(1, BYTES_TYPE, inner);
    assert [f][1..] == [];
    assert PutFields([f]) == PutField(f) + [];
  }

  lemma ThreeFields(a: Field, b: Field, c: Field)
    ensures PutFields([a, b, c]) == PutField(a) + PutField(b) + PutField(c)
  {
    hide PutField;
    assert [a, b, c][1..] == [b, c] && [b, c][1..] == [c] && [c][1..] == [];
    assert PutFields([c]) == PutField(c) + PutFields([]) == PutField(c);
    assert PutFields([b, c]) == PutField(b) + PutFields([c]);
    assert PutField(a) + (PutField(b) + PutField(c)) == PutField(a) + PutField(b) + PutField(c);
  }

  lemma SmallVarint(v: byte)
    requires v < 128
    ensures PutVarint(v) == [v]
  {
  }

  /** What a block yields by the codec of its CID. */
  lemma PayloadByCodec(data: Bytes, payload: Bytes)
    ensures BlockPayload(Raw, data) == Some(data) && BlockPayload(OtherCodec, data) == None
    ensures BlockPayload(DagProtobuf, data) == Some(payload) <==>
              exists inner ::
                FirstWith(FieldsOf(data).0, 1) == Some(inner) && FirstWith(FieldsOf(inner).0, 2) == Some(payload)
  {
    hide FirstWith, FieldsOf;
  }
}
