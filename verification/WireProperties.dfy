/** Records survive writing and reading, and reading works record by record. */
module WireProperties {
  import opened Wrappers
  import opened WireFormat

  // ---------- round trip ----------

  function Pow128(k: nat): nat {
    if k == 0 then 1 else 128 * Pow128(k - 1)
  }

  lemma {:induction false} VarintRoundTrip(n: nat, rest: seq<Byte>, limit: nat)
    requires n < Pow128(limit) && limit > 0
    ensures ReadGroups(EncodeVarint(n) + rest, limit) == Ok((n, rest))
    decreases n
  {
    var b := EncodeVarint(n) + rest;
    if n < 128 {
      assert b[1..] == rest;
    } else {
      VarintRoundTrip(n / 128, rest, limit - 1);
      assert b[1..] == EncodeVarint(n / 128) + rest;
    }
  }

  lemma Varint64RoundTrip(n: UInt64, rest: seq<Byte>)
    ensures ReadVarint64(EncodeVarint(n) + rest) == Ok((n, rest))
    ensures n < TWO_32 ==> ReadVarint32(EncodeVarint(n) + rest) == Ok((n, rest))
  {
    assert Pow128(10) == 128 * 128 * 128 * 128 * 128 * Pow128(5);
    assert Pow128(5) == 128 * 128 * 128 * 128 * 128;
    VarintRoundTrip(n, rest, 10);
  }

  lemma TagParts(number: FieldNumber, wireType: nat)
    requires wireType < 8
    ensures Tag(number, wireType) / 8 == number && Tag(number, wireType) % 8 == wireType
  {
  }

  lemma TagRoundTrip(number: FieldNumber, wireType: nat, rest: seq<Byte>)
    requires wireType < 8
    ensures ReadTag(EncodeTag(number, wireType) + rest) == Ok((Tag(number, wireType), rest))
  {
    Varint64RoundTrip(Tag(number, wireType), rest);
  }

  lemma RawRoundTrip(x: seq<Byte>, rest: seq<Byte>)
    ensures ReadRaw(x + rest, |x|) == Ok((x, rest))
  {
    assert (x + rest)[..|x|] == x && (x + rest)[|x|..] == rest;
  }

  lemma BytesRoundTrip(bytes: ByteString, rest: seq<Byte>)
    ensures ReadBytes(EncodeVarint(|bytes|) + (bytes + rest)) == Ok((bytes, rest))
  {
    Varint64RoundTrip(|bytes|, bytes + rest);
    RawRoundTrip(bytes, rest);
  }

  lemma {:induction false} RecordRoundTrip(r: Record, rest: seq<Byte>)
    ensures ReadRecord(EncodeRecord(r) + rest) == Next(r, rest)
    decreases r, 1
  {
    var tag := Tag(r.number, WireType(r.wire));
    assert EncodeRecord(r) + rest == EncodeTag(r.number, WireType(r.wire)) + (Payload(r) + rest);
    TagRoundTrip(r.number, WireType(r.wire), Payload(r) + rest);
    PayloadRoundTrip(r, rest);
  }

  lemma {:induction false} PayloadRoundTrip(r: Record, rest: seq<Byte>)
    ensures ReadValue(Tag(r.number, WireType(r.wire)), Payload(r) + rest) == Next(r, rest)
    decreases r, 0
  {
    match r.wire {
      case Bytes(_) => BytesPayloadRoundTrip(r, rest);
      case Group(fields) => GroupPayloadRoundTrip(r, rest);
      case _ => ScalarPayloadRoundTrip(r, rest);
    }
  }

  lemma ScalarPayloadRoundTrip(r: Record, rest: seq<Byte>)
    requires r.wire.Varint? || r.wire.Fixed64? || r.wire.Fixed32?
    ensures ReadValue(Tag(r.number, WireType(r.wire)), Payload(r) + rest) == Next(r, rest)
  {
    TagParts(r.number, WireType(r.wire));
    match r.wire {
      case Varint(value) => Varint64RoundTrip(value, rest);
      case Fixed64(eight) => RawRoundTrip(eight, rest);
      case Fixed32(four) => RawRoundTrip(four, rest);
    }
  }

  lemma BytesPayloadRoundTrip(r: Record, rest: seq<Byte>)
    requires r.wire.Bytes?
    ensures ReadValue(Tag(r.number, 2), Payload(r) + rest) == Next(r, rest)
  {
    var bytes := r.wire.bytes;
    TagParts(r.number, 2);
    BytesRoundTrip(bytes, rest);
    assert EncodeVarint(|bytes|) + bytes + rest == EncodeVarint(|bytes|) + (bytes + rest);
  }

  lemma {:induction false} GroupPayloadRoundTrip(r: Record, rest: seq<Byte>)
    requires r.wire.Group?
    ensures ReadValue(Tag(r.number, 3), Payload(r) + rest) == Next(r, rest)
    decreases r.wire
  {
    TagParts(r.number, 3);
    assert Payload(r) + rest == EncodeRecords(r.wire.fields) + (EncodeTag(r.number, END_GROUP) + rest);
    GroupRoundTrip(r.number, r.wire.fields, rest);
  }

  lemma GroupNext(number: FieldNumber, b: seq<Byte>, r: Record, rest: seq<Byte>)
    requires b != [] && ReadRecord(b) == Next(r, rest) && ReadGroup(number, rest).Ok?
    ensures var (rs, rest') := ReadGroup(number, rest).value; ReadGroup(number, b) == Ok(([r] + rs, rest'))
  {
  }

  lemma {:induction false} GroupRoundTrip(number: FieldNumber, fields: seq<Record>, rest: seq<Byte>)
    ensures ReadGroup(number, EncodeRecords(fields) + (EncodeTag(number, END_GROUP) + rest)) == Ok((fields, rest))
    decreases fields
  {
    var end := EncodeTag(number, END_GROUP) + rest;
    if fields == [] {
      assert EncodeRecords(fields) + end == end;
      TagRoundTrip(number, END_GROUP, rest);
      TagParts(number, END_GROUP);
      assert ReadRecord(end) == EndGroup(number, rest);
    } else {
      assert EncodeRecords(fields) + end == EncodeRecord(fields[0]) + (EncodeRecords(fields[1..]) + end);
      var b, tail := EncodeRecords(fields) + end, EncodeRecords(fields[1..]) + end;
      RecordRoundTrip(fields[0], tail);
      GroupRoundTrip(number, fields[1..], rest);
      GroupNext(number, b, fields[0], tail);
      assert [fields[0]] + fields[1..] == fields;
    }
  }

  lemma TokeniseNext(b: seq<Byte>, r: Record, rest: seq<Byte>)
    requires ReadRecord(b) == Next(r, rest) && b != []
    ensures Tokenise(b) == ([r] + Tokenise(rest).0, Tokenise(rest).1)
  {
  }

  lemma {:induction false} RecordsRoundTrip(rs: seq<Record>)
    ensures Tokenise(EncodeRecords(rs)) == (rs, AtEnd)
    decreases rs
  {
    if rs != [] {
      var rest := EncodeRecords(rs[1..]);
      RecordRoundTrip(rs[0], rest);
      TokeniseNext(EncodeRecords(rs), rs[0], rest);
      assert [rs[0]] + rs[1..] == rs;
      RecordsRoundTrip(rs[1..]);
    }
  }

  // ---------- more bytes do not change what was read ----------

  lemma {:induction false} GroupsExtend(b: seq<Byte>, more: seq<Byte>, limit: nat)
    requires ReadGroups(b, limit).Ok?
    ensures var (n, rest) := ReadGroups(b, limit).value; ReadGroups(b + more, limit) == Ok((n, rest + more))
    decreases limit
  {
    assert (b + more)[1..] == b[1..] + more;
    if b[0] >= 128 {
      GroupsExtend(b[1..], more, limit - 1);
    }
  }

  lemma RawExtends(b: seq<Byte>, more: seq<Byte>, n: nat)
    requires n <= |b|
    ensures ReadRaw(b + more, n) == Ok((b[..n], b[n..] + more))
  {
    assert (b + more)[..n] == b[..n] && (b + more)[n..] == b[n..] + more;
  }

  lemma {:induction false} ValueExtends(tag: UInt32, b: seq<Byte>, more: seq<Byte>)
    requires tag >= 8 && ReadValue(tag, b).Next?
    ensures var s := ReadValue(tag, b); ReadValue(tag, b + more) == Next(s.record, s.rest + more)
    decreases |b|, 2
  {
    match tag % 8 {
      case 0 => GroupsExtend(b, more, 10);
      case 1 => RawExtends(b, more, 8);
      case 2 =>
        GroupsExtend(b, more, 10);
        var (n, rest) := ReadVarint32(b).value;
        RawExtends(rest, more, n);
      case 3 => GroupExtends(tag / 8, b, more);
      case _ => RawExtends(b, more, 4);
    }
  }

  lemma {:induction false} RecordExtends(b: seq<Byte>, more: seq<Byte>)
    requires ReadRecord(b).Next? || ReadRecord(b).EndGroup?
    ensures var s := ReadRecord(b);
            ReadRecord(b + more) ==
            if s.Next? then Next(s.record, s.rest + more) else EndGroup(s.number, s.rest + more)
    decreases |b|, 0
  {
    GroupsExtend(b, more, 10);
    var (tag, rest) := ReadTag(b).value;
    if ReadRecord(b).Next? {
      ValueExtends(tag, rest, more);
    }
  }

  lemma {:induction false} GroupExtends(number: FieldNumber, b: seq<Byte>, more: seq<Byte>)
    requires ReadGroup(number, b).Ok?
    ensures var (rs, rest) := ReadGroup(number, b).value; ReadGroup(number, b + more) == Ok((rs, rest + more))
    decreases |b|, 1
  {
    RecordExtends(b, more);
    if ReadRecord(b).Next? {
      GroupExtends(number, ReadRecord(b).rest, more);
    }
  }

  /** The records of two streams put together are the records of the one and then of the other. */
  lemma {:induction false} TokeniseConcat(a: seq<Byte>, b: seq<Byte>)
    requires WellFormed(a)
    ensures Tokenise(a + b) == (Tokenise(a).0 + Tokenise(b).0, Tokenise(b).1)
    decreases |a|
  {
    if a == [] {
      assert a + b == b && [] + Tokenise(b).0 == Tokenise(b).0;
    } else {
      var s := ReadRecord(a);
      RecordExtends(a, b);
      TokeniseNext(a, s.record, s.rest);
      TokeniseNext(a + b, s.record, s.rest + b);
      TokeniseConcat(s.rest, b);
      var (first, rest) := (Tokenise(s.rest).0, Tokenise(b).0);
      assert ([s.record] + first) + rest == [s.record] + (first + rest);
    }
  }
}
