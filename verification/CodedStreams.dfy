/** The parts of the library that the generated code calls: coded output, sizes and coded input. */
module CodedStreams {
  import opened JavaInt
  import opened Wrappers
  import opened WireFormat
  import opened Messages

  // ---------- sizes ----------

  /** One byte for every seven bits, at least one and at most ten. */
  function VarintSize(n: UInt64): nat {
    if n < 0x80 then 1 else if n < 0x4000 then 2 else if n < 0x20_0000 then 3 else if n < 0x1000_0000 then 4
    else if n < 0x8_0000_0000 then 5 else if n < 0x400_0000_0000 then 6 else if n < 0x2_0000_0000_0000 then 7
    else if n < 0x100_0000_0000_0000 then 8 else if n < 0x8000_0000_0000_0000 then 9 else 10
  }

  lemma {:induction false} VarintSizeIsExact(n: UInt64)
    ensures VarintSize(n) == |EncodeVarint(n)|
    decreases n
  {
    if n >= 128 {
      VarintSizeIsExact(n / 128);
    }
  }

  function TagSize(number: FieldNumber): nat {
    VarintSize(Tag(number, 0))
  }

  function ComputeUInt64Size(number: FieldNumber, value: UInt64): nat {
    TagSize(number) + VarintSize(value)
  }

  function ComputeBoolSize(number: FieldNumber, value: bool): nat {
    TagSize(number) + 1
  }

  function ComputeBytesSize(number: FieldNumber, value: ByteString): nat {
    TagSize(number) + VarintSize(|value|) + |value|
  }

  function BoolWire(value: bool): Wire {
    Varint(if value then 1 else 0)
  }

  lemma UInt64SizeIsExact(number: FieldNumber, value: UInt64)
    ensures ComputeUInt64Size(number, value) == |EncodeRecord(Record(number, Varint(value)))|
  {
    VarintSizeIsExact(Tag(number, 0));
    VarintSizeIsExact(value);
  }

  lemma BoolSizeIsExact(number: FieldNumber, value: bool)
    ensures ComputeBoolSize(number, value) == |EncodeRecord(Record(number, BoolWire(value)))|
  {
    VarintSizeIsExact(Tag(number, 0));
  }

  lemma BytesSizeIsExact(number: FieldNumber, value: ByteString)
    ensures ComputeBytesSize(number, value) == |EncodeRecord(Record(number, Bytes(value)))|
  {
    VarintSizeIsExact(Tag(number, 2));
    VarintSizeIsExact(|value|);
    TagSizeIgnoresType(number);
  }

  lemma TagSizeIgnoresType(number: FieldNumber)
    ensures VarintSize(Tag(number, 0)) == VarintSize(Tag(number, 2))
  {
  }

  // ---------- what the first k fields make of a stream ----------

  lemma {:induction false} EncodeConcat(a: seq<Record>, b: seq<Record>)
    ensures EncodeRecords(a + b) == EncodeRecords(a) + EncodeRecords(b)
    decreases a
  {
    if a == [] {
      assert a + b == b;
    } else {
      assert (a + b)[0] == a[0] && (a + b)[1..] == a[1..] + b;
      EncodeConcat(a[1..], b);
    }
  }

  function FieldBytes(known: seq<Option<Wire>>, n: nat): seq<Byte>
    requires 0 < n < |known| < 0x2000_0000
  {
    if known[n].Some? then EncodeRecord(Record(n, known[n].value)) else []
  }

  /** The bytes of the fields below k. */
  function Prefix(known: seq<Option<Wire>>, k: nat): seq<Byte>
    requires k <= |known| < 0x2000_0000
  {
    EncodeRecords(KnownRecords(known, k))
  }

  lemma PrefixStart(known: seq<Option<Wire>>, start: seq<Byte>)
    requires 0 < |known| < 0x2000_0000
    ensures start + Prefix(known, 1) == start
  {
  }

  lemma PrefixStep(known: seq<Option<Wire>>, n: nat, start: seq<Byte>)
    requires 0 < n < |known| < 0x2000_0000
    ensures start + Prefix(known, n + 1) == (start + Prefix(known, n)) + FieldBytes(known, n)
    ensures |Prefix(known, n + 1)| == |Prefix(known, n)| + |FieldBytes(known, n)|
  {
    var before := KnownRecords(known, n);
    if known[n].Some? {
      var r := Record(n, known[n].value);
      EncodeConcat(before, [r]);
      assert [r][1..] == [];
      assert EncodeRecords([r]) == EncodeRecord(r);
    } else {
      assert KnownRecords(known, n + 1) == before;
    }
  }

  lemma PrefixEnd(m: Message, start: seq<Byte>)
    requires 0 < |m.known| < 0x2000_0000
    ensures (start + Prefix(m.known, |m.known|)) + EncodeRecords(m.unknown) == start + Write(m)
    ensures |Write(m)| == |Prefix(m.known, |m.known|)| + |EncodeRecords(m.unknown)|
  {
    EncodeConcat(KnownRecords(m.known, |m.known|), m.unknown);
    Associative(start, Prefix(m.known, |m.known|), EncodeRecords(m.unknown));
  }

  lemma Associative(a: seq<Byte>, b: seq<Byte>, c: seq<Byte>)
    ensures (a + b) + c == a + (b + c)
  {
  }

  lemma PrefixSizeStep(known: seq<Option<Wire>>, n: nat, size: Int32)
    requires 0 < n < |known| < 0x2000_0000 && size == Wrap32(|Prefix(known, n)|)
    ensures Wrap32(size + |FieldBytes(known, n)|) == Wrap32(|Prefix(known, n + 1)|)
  {
    PrefixStep(known, n, []);
    WrapsOnce(|Prefix(known, n)|, |FieldBytes(known, n)|);
  }

  // ---------- output ----------

  class CodedOutputStream {
    var bytes: seq<Byte>

    constructor ()
      ensures bytes == []
    {
      bytes := [];
    }

    /** A tag and the payload after it. */
    method WriteRecord(r: Record)
      modifies this
      ensures bytes == old(bytes) + EncodeRecord(r)
    {
      bytes := bytes + EncodeRecord(r);
    }

    method WriteUInt64(number: FieldNumber, value: UInt64)
      modifies this
      ensures bytes == old(bytes) + EncodeRecord(Record(number, Varint(value)))
    {
      WriteRecord(Record(number, Varint(value)));
    }

    method WriteUInt32(number: FieldNumber, value: UInt32)
      modifies this
      ensures bytes == old(bytes) + EncodeRecord(Record(number, Varint(value)))
    {
      WriteRecord(Record(number, Varint(value)));
    }

    method WriteBool(number: FieldNumber, value: bool)
      modifies this
      ensures bytes == old(bytes) + EncodeRecord(Record(number, BoolWire(value)))
    {
      WriteRecord(Record(number, BoolWire(value)));
    }

    method WriteBytes(number: FieldNumber, value: ByteString)
      modifies this
      ensures bytes == old(bytes) + EncodeRecord(Record(number, Bytes(value)))
    {
      WriteRecord(Record(number, Bytes(value)));
    }

    /** `getUnknownFields().writeTo(output)` */
    method WriteUnknown(fields: seq<Record>)
      modifies this
      ensures bytes == old(bytes) + EncodeRecords(fields)
    {
      for i := 0 to |fields|
        invariant bytes + EncodeRecords(fields[i..]) == old(bytes) + EncodeRecords(fields)
      {
        WriteRecord(fields[i]);
        assert fields[i..][0] == fields[i] && fields[i..][1..] == fields[i + 1..];
      }
    }
  }

  // ---------- input ----------

  /** The typed reads that follow a tag read what the record of that tag holds. */
  class CodedInputStream {
    var rest: seq<Byte>

    constructor (b: seq<Byte>)
      ensures rest == b
    {
      rest := b;
    }

    /** Zero at the end of the input. */
    method ReadTag() returns (r: Result<UInt32, WireError>)
      modifies this
      ensures old(rest) == [] <==> r == Ok(0)
      ensures old(rest) == [] ==> rest == []
      ensures old(rest) != [] && r.Ok? ==> WireFormat.ReadTag(old(rest)) == Ok((r.value, rest)) && r.value >= 8
      ensures r.Err? ==> old(rest) != [] && ReadRecord(old(rest)) == Bad(r.error)
    {
      if rest == [] {
        return Ok(0);
      }
      match WireFormat.ReadTag(rest) {
        case Err(e) => return Err(e);
        case Ok((tag, b)) =>
          rest := b;
          return Ok(tag);
      }
    }

    method ReadUInt64(ghost tag: UInt32) returns (r: Result<UInt64, WireError>)
      requires tag >= 8 && tag % 8 == 0
      modifies this
      ensures ReadValue(tag, old(rest)) ==
              match r case Ok(v) => Next(Record(tag / 8, Varint(v)), rest) case Err(e) => Bad(e)
    {
      match ReadVarint64(rest) {
        case Err(e) => return Err(e);
        case Ok((v, b)) =>
          rest := b;
          return Ok(v);
      }
    }

    method ReadUInt32(ghost tag: UInt32) returns (r: Result<UInt32, WireError>, ghost wide: UInt64)
      requires tag >= 8 && tag % 8 == 0
      modifies this
      ensures ReadValue(tag, old(rest)) ==
              match r case Ok(_) => Next(Record(tag / 8, Varint(wide)), rest) case Err(e) => Bad(e)
      ensures r.Ok? ==> r.value == wide % TWO_32
    {
      wide := 0;
      match ReadVarint32(rest) {
        case Err(e) => return Err(e), wide;
        case Ok((v, b)) =>
          wide := ReadVarint64(rest).value.0;
          NarrowRead(ReadGroups(rest, 10).value.0);
          rest := b;
          return Ok(v), wide;
      }
    }

    /** `readBool`: any varint whose low 32 bits are not all zero. */
    method ReadBool(ghost tag: UInt32) returns (r: Result<bool, WireError>, ghost wide: UInt64)
      requires tag >= 8 && tag % 8 == 0
      modifies this
      ensures ReadValue(tag, old(rest)) ==
              match r case Ok(_) => Next(Record(tag / 8, Varint(wide)), rest) case Err(e) => Bad(e)
      ensures r.Ok? ==> r.value == (wide % TWO_32 != 0)
    {
      var v;
      v, wide := ReadUInt32(tag);
      r := match v case Ok(n) => Ok(n != 0) case Err(e) => Err(e);
    }

    method ReadBytes(ghost tag: UInt32) returns (r: Result<ByteString, WireError>)
      requires tag >= 8 && tag % 8 == 2
      modifies this
      ensures ReadValue(tag, old(rest)) ==
              match r case Ok(v) => Next(Record(tag / 8, Bytes(v)), rest) case Err(e) => Bad(e)
    {
      match WireFormat.ReadBytes(rest) {
        case Err(e) => return Err(e);
        case Ok((v, b)) =>
          rest := b;
          return Ok(v);
      }
    }

    /** `parseUnknownField`: the record after any other tag, unless the tag ends a group. */
    method ReadUnknown(tag: UInt32) returns (s: Step)
      requires tag >= 8
      modifies this
      ensures s == ReadValue(tag, old(rest))
      ensures s.Next? || s.EndGroup? ==> rest == s.rest
    {
      s := ReadValue(tag, rest);
      if !s.Bad? {
        rest := s.rest;
      }
    }
  }

  /** Reading 32 of the 64 bits is reading 64 and dropping the rest. */
  lemma NarrowRead(n: nat)
    ensures n % TWO_64 % TWO_32 == n % TWO_32
  {
    var q := n / TWO_64;
    assert n == n % TWO_64 + TWO_32 * (TWO_32 * q);
  }
}
