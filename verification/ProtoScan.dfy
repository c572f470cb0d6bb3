/** The scanners that find the payload of a stored block: the first field with a given number in a Protocol
    Buffers message, without decoding the rest (Encoding guide, "Base 128 Varints" and "Message Structure"). */
module ProtoScan {
  import opened Base
  import opened Pieces

  const VARINT_TYPE := 0
  const FIXED64_TYPE := 1
  const BYTES_TYPE := 2
  const START_GROUP_TYPE := 3
  const END_GROUP_TYPE := 4
  const FIXED32_TYPE := 5

  /** How deep groups may be nested. */
  const RECURSION_LIMIT := 10000

  datatype Varint = Varint(value: nat, size: nat)

  datatype Tag = Tag(num: nat, typ: nat, size: nat)

  // ---- reading the front of a message

  /** A varint of at most `left` bytes, the last of which then holds one bit. */
  function ReadVarint(b: Bytes, left: nat): (v: Option<Varint>)
    requires left > 0
    ensures v.Some? ==> 0 < v.value.size <= |b|
  {
    if b == [] then None
    else if left == 1 then if b[0] < 2 then Some(Varint(b[0], 1)) else None
    else if b[0] < 128 then Some(Varint(b[0], 1))
    else
      match ReadVarint(b[1..], left - 1)
      case None => None
      case Some(v) => Some(Varint(b[0] - 128 + 128 * v.value, v.size + 1))
  }

  function ConsumeVarint(b: Bytes): (v: Option<Varint>)
    ensures v.Some? ==> 0 < v.value.size <= |b|
  {
    ReadVarint(b, 10)
  }

  /** A field's number and wire type; the number must be positive and fit 31 bits. */
  function ConsumeTag(b: Bytes): (t: Option<Tag>)
    ensures t.Some? ==> 0 < t.value.size <= |b|
  {
    match ConsumeVarint(b)
    case None => None
    case Some(v) =>
      var num := v.value / 8;
      if 1 <= num < 0x8000_0000 then Some(Tag(num, v.value % 8, v.size)) else None
  }

  /** A length and as many bytes; how many bytes there are in all. */
  function ConsumeBytes(b: Bytes): (v: Option<Varint>)
    ensures v.Some? ==> v.value.value <= v.value.size <= |b|
  {
    match ConsumeVarint(b)
    case None => None
    case Some(v) => if v.value > |b| - v.size then None else Some(Varint(v.value, v.size + v.value))
  }

  /** The number of bytes of a field's value. */
  function ConsumeFieldValue(num: nat, typ: nat, b: Bytes, depth: nat): (n: Option<nat>)
    ensures n.Some? ==> n.value <= |b|
    decreases |b|, 1
  {
    if typ == VARINT_TYPE then
      match ConsumeVarint(b) case None => None case Some(v) => Some(v.size)
    else if typ == FIXED32_TYPE then if |b| < 4 then None else Some(4)
    else if typ == FIXED64_TYPE then if |b| < 8 then None else Some(8)
    else if typ == BYTES_TYPE then
      match ConsumeBytes(b) case None => None case Some(v) => Some(v.size)
    else if typ == START_GROUP_TYPE then ConsumeGroup(num, b, depth)
    else None
  }

  /** Fields up to the end-group tag of the group's own number. */
  function ConsumeGroup(num: nat, b: Bytes, depth: nat): (n: Option<nat>)
    ensures n.Some? ==> n.value <= |b|
    decreases |b|, 0
  {
    match ConsumeTag(b)
    case None => None
    case Some(t) =>
      if t.typ == END_GROUP_TYPE then if t.num == num then Some(t.size) else None
      else if t.typ == START_GROUP_TYPE && depth == 0 then None
      else
        match ConsumeFieldValue(t.num, t.typ, b[t.size..], if depth == 0 then 0 else depth - 1)
        case None => None
        case Some(n) =>
          match ConsumeGroup(num, b[t.size + n..], depth)
          case None => None
          case Some(m) => Some(t.size + n + m)
  }

  // ---- the whole message

  /** A field: its number, its wire type, and its payload, which for a length-prefixed field is what follows
      the prefix, and otherwise the bytes of the value. */
  datatype Field = Field(num: nat, typ: nat, payload: Bytes)

  datatype Parsed = Parsed(field: Field, size: nat)

  function NextField(b: Bytes): (p: Option<Parsed>)
    ensures p.Some? ==> 0 < p.value.size <= |b|
  {
    match ConsumeTag(b)
    case None => None
    case Some(t) =>
      var rest := b[t.size..];
      match ConsumeFieldValue(t.num, t.typ, rest, RECURSION_LIMIT)
      case None => None
      case Some(n) =>
        var payload := if t.typ == BYTES_TYPE then rest[n - ConsumeBytes(rest).value.value..n] else rest[..n];
        Some(Parsed(Field(t.num, t.typ, payload), t.size + n))
  }

  /** The full decoder: all fields up to the end of the message or the first malformed one, and what is left. */
  function FieldsOf(b: Bytes): (seq<Field>, Bytes)
    decreases |b|
  {
    match NextField(b)
    case None => ([], b)
    case Some(p) => var (fields, rest) := FieldsOf(b[p.size..]); ([p.field] + fields, rest)
  }

  /** The payload of the first length-prefixed field with the number. */
  function FirstWith(fields: seq<Field>, num: nat): Option<Bytes> {
    if fields == [] then None
    else if fields[0].num == num && fields[0].typ == BYTES_TYPE then Some(fields[0].payload)
    else FirstWith(fields[1..], num)
  }

  /** In terms of positions: a field with the number is found, and none before it has the number. */
  lemma {:induction false} FirstWithIff(fields: seq<Field>, num: nat, payload: Bytes)
    ensures FirstWith(fields, num) == Some(payload) <==>
            exists k :: 0 <= k < |fields| && fields[k] == Field(num, BYTES_TYPE, payload)
                        && forall j :: 0 <= j < k ==> !(fields[j].num == num && fields[j].typ == BYTES_TYPE)
  {
    if fields != [] && !(fields[0].num == num && fields[0].typ == BYTES_TYPE) {
      var more := fields[1..];
      FirstWithIff(more, num, payload);
      if FirstWith(more, num) == Some(payload) {
        var k :| 0 <= k < |more| && more[k] == Field(num, BYTES_TYPE, payload)
                 && forall j :: 0 <= j < k ==> !(more[j].num == num && more[j].typ == BYTES_TYPE);
        assert fields[k + 1] == more[k];
        assert forall j :: 1 <= j < k + 1 ==> fields[j] == more[j - 1];
      } else {
        forall k | 0 <= k < |fields| && fields[k] == Field(num, BYTES_TYPE, payload)
          ensures exists j :: 0 <= j < k && fields[j].num == num && fields[j].typ == BYTES_TYPE
        {
          assert more[k - 1] == fields[k];
          var j :| 0 <= j < k - 1 && more[j].num == num && more[j].typ == BYTES_TYPE;
          assert fields[j + 1] == more[j];
        }
      }
    }
  }

  lemma FieldsUnfold(b: Bytes)
    ensures NextField(b).None? ==> FieldsOf(b).0 == []
    ensures NextField(b).Some? ==>
              FieldsOf(b).0 == [NextField(b).value.field] + FieldsOf(b[NextField(b).value.size..]).0
  {
  }

  lemma FirstUnfold(f: Field, more: seq<Field>, num: nat)
    ensures FirstWith([f] + more, num) ==
            if f.num == num && f.typ == BYTES_TYPE then Some(f.payload) else FirstWith(more, num)
  {
  }

  /** What one turn of a scanner finds: nothing at a malformed field, the payload of a field it looks for, and
      otherwise what the rest of the message gives. */
  lemma ScanTurn(b: Bytes, num: nat)
    ensures ConsumeTag(b).None? ==> FirstWith(FieldsOf(b).0, num) == None
    ensures ConsumeTag(b).Some? ==>
              var t := ConsumeTag(b).value; var rest := b[t.size..];
              if t.num == num && t.typ == BYTES_TYPE then
                FirstWith(FieldsOf(b).0, num) ==
                  match ConsumeBytes(rest) case None => None case Some(v) => Some(rest[v.size - v.value..v.size])
              else
                match ConsumeFieldValue(t.num, t.typ, rest, RECURSION_LIMIT)
                case None => FirstWith(FieldsOf(b).0, num) == None
                case Some(n) => FirstWith(FieldsOf(b).0, num) == FirstWith(FieldsOf(rest[n..]).0, num)
  {
    hide ConsumeTag, ConsumeBytes, ConsumeGroup, FieldsOf, FirstWith;
    FieldsUnfold(b);
    NoFirst(num);
    if NextField(b).Some? {
      var p := NextField(b).value;
      FirstUnfold(p.field, FieldsOf(b[p.size..]).0, num);
      var t := ConsumeTag(b).value;
      assert b[t.size..][p.size - t.size..] == b[p.size..];
    }
  }

  lemma NoFirst(num: nat)
    ensures FirstWith([], num) == None
  {
  }

  lemma NoFields()
    ensures FieldsOf([]).0 == []
  {
  }

  /** consumeDAGPBDataField: the payload of the first length-prefixed field 1, as the full decoder has it; it
      fails exactly when there is no such field before the end or the first malformed field. */
  method ConsumeDagPbData(raw: Bytes) returns (data: Option<Bytes>)
    ensures data == FirstWith(FieldsOf(raw).0, 1)
  {
    hide FirstWith, FieldsOf, ConsumeTag, ConsumeFieldValue, ConsumeBytes;
    var b := raw;
    while |b| > 0
      invariant FirstWith(FieldsOf(b).0, 1) == FirstWith(FieldsOf(raw).0, 1)
      decreases |b|
    {
      ScanTurn(b, 1);
      var tag := ConsumeTag(b);
      if tag.None? {
        return None;
      }
      b := b[tag.value.size..];
      if tag.value.num == 1 && tag.value.typ == BYTES_TYPE {
        var v := ConsumeBytes(b);
        if v.None? {
          return None;
        }
        return Some(b[v.value.size - v.value.value..v.value.size]);
      }
      var n := ConsumeFieldValue(tag.value.num, tag.value.typ, b, RECURSION_LIMIT);
      if n.None? {
        return None;
      }
      b := b[n.value..];
    }
    NoFields();
    NoFirst(1);
    return None;
  }

  /** consumeUnixFSDataField: the same for field 2. */
  method ConsumeUnixFsData(raw: Bytes) returns (data: Option<Bytes>)
    ensures data == FirstWith(FieldsOf(raw).0, 2)
  {
    hide FirstWith, FieldsOf, ConsumeTag, ConsumeFieldValue, ConsumeBytes;
    var b := raw;
    while |b| > 0
      invariant FirstWith(FieldsOf(b).0, 2) == FirstWith(FieldsOf(raw).0, 2)
      decreases |b|
    {
      ScanTurn(b, 2);
      var tag := ConsumeTag(b);
      if tag.None? {
        return None;
      }
      b := b[tag.value.size..];
      if tag.value.num == 2 && tag.value.typ == BYTES_TYPE {
        var v := ConsumeBytes(b);
        if v.None? {
          return None;
        }
        return Some(b[v.value.size - v.value.value..v.value.size]);
      }
      var n := ConsumeFieldValue(tag.value.num, tag.value.typ, b, RECURSION_LIMIT);
      if n.None? {
        return None;
      }
      b := b[n.value..];
    }
    NoFields();
    NoFirst(2);
    return None;
  }

  // ---- writing a message

  function PutVarint(v: nat): (b: Bytes)
    ensures |b| > 0
  {
    if v < 128 then [v] else [128 + v % 128] + PutVarint(v / 128)
  }

  /** One more than the largest value a varint of at most `left` bytes can hold. */
  function VarintBound(left: nat): (n: nat)
    requires left > 0
    ensures n > 1
  {
    if left == 1 then 2 else 128 * VarintBound(left - 1)
  }

  lemma TenBytes()
    ensures VarintBound(10) == 0x1_0000_0000_0000_0000
  {
  }

  lemma {:induction false} ReadAfterPut(v: nat, left: nat, tail: Bytes)
    requires left > 0 && v < VarintBound(left)
    ensures ReadVarint(PutVarint(v) + tail, left) == Some(Varint(v, |PutVarint(v)|))
    decreases left
  {
    if v < 128 {
    } else {
      ReadAfterPut(v / 128, left - 1, tail);
      assert (PutVarint(v) + tail)[1..] == PutVarint(v / 128) + tail;
    }
  }

  /** The varints of all 64-bit values are read back. */
  lemma VarintRoundTrip(v: nat, tail: Bytes)
    requires v < 0x1_0000_0000_0000_0000
    ensures ConsumeVarint(PutVarint(v) + tail) == Some(Varint(v, |PutVarint(v)|))
  {
    TenBytes();
    ReadAfterPut(v, 10, tail);
  }

  /** A field whose payload needs no group: a varint, eight or four bytes, or length-prefixed. */
  ghost predicate Plain(f: Field) {
    && 1 <= f.num < 0x8000_0000
    && match f.typ
       case 0 => exists v :: v < 0x1_0000_0000_0000_0000 && f.payload == PutVarint(v)
       case 1 => |f.payload| == 8
       case 2 => |f.payload| < 0x1_0000_0000_0000_0000
       case 5 => |f.payload| == 4
       case _ => false
  }

  function PutField(f: Field): (b: Bytes)
    ensures |b| > 0
  {
    PutVarint(8 * f.num + f.typ) + (if f.typ == BYTES_TYPE then PutVarint(|f.payload|) else []) + f.payload
  }

  function PutFields(fields: seq<Field>): Bytes {
    if fields == [] then [] else PutField(fields[0]) + PutFields(fields[1..])
  }

  lemma TagRoundTrip(f: Field, tail: Bytes)
    requires 1 <= f.num < 0x8000_0000 && f.typ < 8
    ensures ConsumeTag(PutVarint(8 * f.num + f.typ) + tail) ==
            Some(Tag(f.num, f.typ, |PutVarint(8 * f.num + f.typ)|))
  {
    VarintRoundTrip(8 * f.num + f.typ, tail);
  }

  lemma BytesRoundTrip(payload: Bytes, tail: Bytes)
    requires |payload| < 0x1_0000_0000_0000_0000
    ensures var b := PutVarint(|payload|) + payload + tail;
            && ConsumeBytes(b) == Some(Varint(|payload|, |PutVarint(|payload|)| + |payload|))
            && b[|PutVarint(|payload|)|..|PutVarint(|payload|)| + |payload|] == payload
  {
    hide ConsumeVarint;
    assert PutVarint(|payload|) + payload + tail == PutVarint(|payload|) + (payload + tail);
    VarintRoundTrip(|payload|, payload + tail);
  }

  lemma ValueRoundTrip(f: Field, tail: Bytes)
    requires Plain(f)
    ensures ConsumeFieldValue(f.num, f.typ, FieldValue(f) + tail, RECURSION_LIMIT) == Some(|FieldValue(f)|)
  {
    hide ConsumeVarint, ConsumeGroup;
    if f.typ == BYTES_TYPE {
      BytesRoundTrip(f.payload, tail);
    } else if f.typ == VARINT_TYPE {
      var v :| v < 0x1_0000_0000_0000_0000 && f.payload == PutVarint(v);
      VarintRoundTrip(v, tail);
      assert [] + f.payload + tail == PutVarint(v) + tail;
    }
  }

  /** A field is read back whatever follows it. */
  lemma FieldRoundTrip(f: Field, tail: Bytes)
    requires Plain(f)
    ensures NextField(PutField(f) + tail) == Some(Parsed(f, |PutField(f)|))
  {
    hide ConsumeTag, ConsumeFieldValue, ConsumeBytes, PutVarint, NextField, PutField, FieldValue;
    var tag, value := PutVarint(8 * f.num + f.typ), FieldValue(f);
    TagRoundTrip(f, value + tail);
    ValueRoundTrip(f, tail);
    PayloadIn(f, tail);
    FieldParts(f, tail);
    assert (PutField(f) + tail)[|tag|..] == value + tail;
    Reassembles(PutField(f) + tail, |tag|, value + tail, f, |value|);
  }

  function FieldValue(f: Field): Bytes {
    (if f.typ == BYTES_TYPE then PutVarint(|f.payload|) else []) + f.payload
  }

  lemma FieldParts(f: Field, tail: Bytes)
    ensures PutField(f) + tail == PutVarint(8 * f.num + f.typ) + (FieldValue(f) + tail)
    ensures |PutField(f)| == |PutVarint(8 * f.num + f.typ)| + |FieldValue(f)|
  {
    hide PutVarint;
  }

  lemma PayloadIn(f: Field, tail: Bytes)
    requires Plain(f)
    ensures var rest, n := FieldValue(f) + tail, |FieldValue(f)|;
            if f.typ == BYTES_TYPE then
              ConsumeBytes(rest).Some? && |f.payload| <= n && ConsumeBytes(rest).value == Varint(|f.payload|, n)
              && rest[n - |f.payload|..n] == f.payload
            else rest[..n] == f.payload
  {
    hide ConsumeBytes, PutVarint;
    if f.typ == BYTES_TYPE {
      BytesRoundTrip(f.payload, tail);
    }
  }

  /** A tag and a value that are read make a field. */
  lemma Reassembles(b: Bytes, at: nat, rest: Bytes, f: Field, n: nat)
    requires at <= |b| && b[at..] == rest && ConsumeTag(b) == Some(Tag(f.num, f.typ, at))
    requires ConsumeFieldValue(f.num, f.typ, rest, RECURSION_LIMIT) == Some(n)
    requires if f.typ == BYTES_TYPE then
               ConsumeBytes(rest).Some? && ConsumeBytes(rest).value == Varint(|f.payload|, n) && |f.payload| <= n <= |rest|
               && rest[n - |f.payload|..n] == f.payload
             else n <= |rest| && rest[..n] == f.payload
    ensures NextField(b) == Some(Parsed(f, at + n))
  {
    hide ConsumeTag, ConsumeFieldValue, ConsumeBytes, ConsumeGroup;
  }

  lemma PutFieldsUnfold(fields: seq<Field>, tail: Bytes)
    ensures PutFields(fields) + tail
         == if fields == [] then tail else PutField(fields[0]) + (PutFields(fields[1..]) + tail)
  {
    hide PutField;
  }

  lemma OneMoreField(b: Bytes, first: Bytes, more: Bytes, f: Field)
    requires b == first + more && NextField(b) == Some(Parsed(f, |first|))
    ensures FieldsOf(b).0 == [f] + FieldsOf(more).0
  {
    hide NextField;
    assert b[|first|..] == more;
  }

  /** The decoder undoes the encoder. */
  lemma {:induction false} FieldsRoundTrip(fields: seq<Field>, tail: Bytes)
    requires forall f :: f in fields ==> Plain(f)
    ensures FieldsOf(PutFields(fields) + tail).0 == fields + FieldsOf(tail).0
  {
    hide Plain, NextField, PutField, FieldsOf, PutFields;
    PutFieldsUnfold(fields, tail);
    if fields == [] {
      assert fields + FieldsOf(tail).0 == FieldsOf(tail).0;
    } else {
      var f, more := fields[0], PutFields(fields[1..]) + tail;
      FieldRoundTrip(f, more);
      FieldsRoundTrip(fields[1..], tail);
      OneMoreField(PutFields(fields) + tail, PutField(f), more, f);
      assert fields + FieldsOf(tail).0 == [f] + (fields[1..] + FieldsOf(tail).0);
    }
  }

  lemma {:induction false} FirstPast(before: seq<Field>, after: seq<Field>, num: nat)
    requires forall f :: f in before ==> !(f.num == num && f.typ == BYTES_TYPE)
    ensures FirstWith(before + after, num) == FirstWith(after, num)
  {
    if before == [] {
      assert before + after == after;
    } else {
      assert (before + after)[1..] == before[1..] + after;
      FirstPast(before[1..], after, num);
    }
  }

  /** The scan finds a field's payload past any fields that are not looked for, and whatever follows. */
  lemma ScanFinds(before: seq<Field>, num: nat, payload: Bytes, tail: Bytes)
    requires forall f :: f in before ==> Plain(f) && !(f.num == num && f.typ == BYTES_TYPE)
    requires Plain(Field(num, BYTES_TYPE, payload))
    ensures FirstWith(FieldsOf(PutFields(before + [Field(num, BYTES_TYPE, payload)]) + tail).0, num) == Some(payload)
  {
    hide Plain, FieldsOf, PutFields;
    var f := Field(num, BYTES_TYPE, payload);
    FieldsRoundTrip(before + [f], tail);
    assert before + [f] + FieldsOf(tail).0 == before + ([f] + FieldsOf(tail).0);
    FirstPast(before, [f] + FieldsOf(tail).0, num);
    FirstUnfold(f, FieldsOf(tail).0, num);
  }

  // ---- blocks

  datatype Codec = DagProtobuf | Raw | OtherCodec

  /** A leaf of the chunk's DAG: a DAG-PB node without links, whose data is a UnixFS file node with the payload. */
  function UnixFsFields(payload: Bytes): seq<Field> {
    [Field(1, VARINT_TYPE, PutVarint(2)), Field(2, BYTES_TYPE, payload),
     Field(3, VARINT_TYPE, PutVarint(|payload|))]
  }

  function Leaf(payload: Bytes): Bytes {
    PutFields([Field(1, BYTES_TYPE, PutFields(UnixFsFields(payload)))])
  }

  function BlockPayload(codec: Codec, data: Bytes): Option<Bytes> {
    match codec
    case Raw => Some(data)
    case OtherCodec => None
    case DagProtobuf =>
      match FirstWith(FieldsOf(data).0, 1)
      case None => None
      case Some(inner) => FirstWith(FieldsOf(inner).0, 2)
  }

  method ExtractBlockData(codec: Codec, data: Bytes) returns (payload: Option<Bytes>)
    ensures payload == BlockPayload(codec, data)
  {
    match codec
    case DagProtobuf =>
      var inner := ConsumeDagPbData(data);
      if inner.None? {
        return None;
      }
      payload := ConsumeUnixFsData(inner.value);
    case Raw => return Some(data);
    case OtherCodec => return None;
  }

  lemma {:induction false} PutFieldsConcat(a: seq<Field>, b: seq<Field>)
    ensures PutFields(a + b) == PutFields(a) + PutFields(b)
  {
    if a == [] {
      assert a + b == b;
    } else {
      assert (a + b)[1..] == a[1..] + b;
      PutFieldsConcat(a[1..], b);
    }
  }

  lemma UnixFsScan(payload: Bytes)
    requires |payload| < 0x1_0000_0000_0000_0000
    ensures FirstWith(FieldsOf(PutFields(UnixFsFields(payload))).0, 2) == Some(payload)
  {
    hide FieldsOf, FirstWith, PutFields;
    var all := UnixFsFields(payload);
    assert all == all[..2] + all[2..];
    PutFieldsConcat(all[..2], all[2..]);
    assert all[..2] == [all[0]] + [all[1]];
    assert Plain(all[0]);
    ScanFinds([all[0]], 2, payload, PutFields(all[2..]));
  }

  /** The payload of a leaf is extracted as it was stored, also past the links of an inner node or any other
      preceding fields, and whatever follows the data field. */
  lemma ExtractsLeaf(before: seq<Field>, payload: Bytes, tail: Bytes)
    requires forall f :: f in before ==> Plain(f) && !(f.num == 1 && f.typ == BYTES_TYPE)
    requires |PutFields(UnixFsFields(payload))| < 0x1_0000_0000_0000_0000
    ensures var inner := PutFields(UnixFsFields(payload));
            BlockPayload(DagProtobuf, PutFields(before + [Field(1, BYTES_TYPE, inner)]) + tail) == Some(payload)
  {
    hide FieldsOf, FirstWith, PutFields, UnixFsFields;
    var inner := PutFields(UnixFsFields(payload));
    InnerLonger(payload);
    UnixFsScan(payload);
    ScanFinds(before, 1, inner, tail);
  }

  lemma InnerLonger(payload: Bytes)
    ensures |payload| <= |PutFields(UnixFsFields(payload))|
  {
  }

  lemma {:induction false} PutVarintShort(v: nat, left: nat)
    requires left > 0 && v < VarintBound(left)
    ensures |PutVarint(v)| <= left
    decreases left
  {
    if v < 128 {
    } else {
      PutVarintShort(v / 128, left - 1);
    }
  }

  lemma InnerShort(payload: Bytes)
    requires |payload| < 0x8000_0000_0000_0000
    ensures |PutFields(UnixFsFields(payload))| < 0x1_0000_0000_0000_0000
  {
    hide PutVarint;
    var all := UnixFsFields(payload);
    assert all == [all[0]] + ([all[1]] + [all[2]]);
    PutFieldsConcat([all[0]], [all[1]] + [all[2]]);
    PutFieldsConcat([all[1]], [all[2]]);
    TenBytes();
    PutVarintShort(2, 10);
    PutVarintShort(|payload|, 10);
    FieldShort(all[0]);
    FieldShort(all[1]);
    FieldShort(all[2]);
  }

  lemma FieldShort(f: Field)
    requires f.num < 16 && f.typ < 8 && |f.payload| < 0x1_0000_0000_0000_0000
    ensures |PutFields([f])| <= 20 + |f.payload|
  {
    hide PutVarint;
    TenBytes();
    PutVarintShort(8 * f.num + f.typ, 10);
    PutVarintShort(|f.payload|, 10);
    assert [f][1..] == [];
    assert PutFields([f]) == PutField(f) + PutFields([]);
  }

  /** What BuildLeafNode stores is what ExtractBlockData returns, for every payload a Go slice can hold. */
  lemma LeafRoundTrip(payload: Bytes)
    requires |payload| < 0x8000_0000_0000_0000
    ensures BlockPayload(DagProtobuf, Leaf(payload)) == Some(payload)
  {
    hide FieldsOf, FirstWith, PutFields, UnixFsFields;
    InnerShort(payload);
    ExtractsLeaf([], payload, []);
    var f := Field(1, BYTES_TYPE, PutFields(UnixFsFields(payload)));
    assert [] + [f] == [f];
    assert PutFields([f]) + [] == PutFields([f]);
  }
}
