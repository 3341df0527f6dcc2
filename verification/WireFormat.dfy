/**
 The Protocol Buffers wire format at byte level, after the Protocol Buffers Encoding guide (sections
 "Base 128 Varints", "Message Structure" and "Length-Delimited Records").

 Readers take the bytes that are left and return a value with the bytes that follow it.
 */
module WireFormat {
  import opened Wrappers

  const TWO_31: nat := 0x8000_0000
  const TWO_32: nat := 0x1_0000_0000
  const TWO_64: nat := 0x1_0000_0000_0000_0000

  type Byte = n: nat | n < 256
  type UInt32 = n: nat | n < TWO_32
  type UInt64 = n: nat | n < TWO_64

  /** A Java byte string has an int as its length. */
  type ByteString = s: seq<Byte> | |s| < TWO_31

  type Eight = s: seq<Byte> | |s| == 8 witness [0, 0, 0, 0, 0, 0, 0, 0]
  type Four = s: seq<Byte> | |s| == 4 witness [0, 0, 0, 0]

  type FieldNumber = n: nat | 0 < n < 0x2000_0000 witness 1

  datatype Wire =
    | Varint(value: UInt64)
    | Fixed64(eight: Eight)
    | Bytes(bytes: ByteString)
    | Group(fields: seq<Record>)
    | Fixed32(four: Four)

  datatype Record = Record(number: FieldNumber, wire: Wire)

  const END_GROUP := 4

  function WireType(w: Wire): nat {
    match w
    case Varint(_) => 0
    case Fixed64(_) => 1
    case Bytes(_) => 2
    case Group(_) => 3
    case Fixed32(_) => 5
  }

  function Tag(number: FieldNumber, wireType: nat): (tag: UInt32)
    requires wireType < 8
  {
    8 * number + wireType
  }

  // ---------- writing ----------

  function EncodeVarint(n: nat): (b: seq<Byte>)
    ensures b != []
  {
    if n < 128 then [n] else [128 + n % 128] + EncodeVarint(n / 128)
  }

  function EncodeTag(number: FieldNumber, wireType: nat): (b: seq<Byte>)
    requires wireType < 8
    ensures b != []
  {
    EncodeVarint(Tag(number, wireType))
  }

  function EncodeRecord(r: Record): (b: seq<Byte>)
    ensures b != []
    decreases r, 1
  {
    EncodeTag(r.number, WireType(r.wire)) + Payload(r)
  }

  function Payload(r: Record): seq<Byte>
    decreases r, 0
  {
    match r.wire
    case Varint(value) => EncodeVarint(value)
    case Fixed64(eight) => eight
    case Bytes(bytes) => EncodeVarint(|bytes|) + bytes
    case Group(fields) => EncodeRecords(fields) + EncodeTag(r.number, END_GROUP)
    case Fixed32(four) => four
  }

  function EncodeRecords(rs: seq<Record>): seq<Byte>
    decreases rs
  {
    if rs == [] then [] else EncodeRecord(rs[0]) + EncodeRecords(rs[1..])
  }

  // ---------- reading ----------

  datatype WireError = Truncated | MalformedVarint | InvalidTag | InvalidWireType | NegativeSize | InvalidEndTag

  /** At most `limit` bytes, the least significant group of seven bits first. */
  function ReadGroups(b: seq<Byte>, limit: nat): (r: Result<(nat, seq<Byte>), WireError>)
    ensures r.Ok? ==> |r.value.1| < |b|
    decreases limit
  {
    if limit == 0 then Err(MalformedVarint)
    else if b == [] then Err(Truncated)
    else if b[0] < 128 then Ok((b[0], b[1..]))
    else
      match ReadGroups(b[1..], limit - 1)
      case Err(e) => Err(e)
      case Ok((n, rest)) => Ok((b[0] - 128 + 128 * n, rest))
  }

  function ReadVarint64(b: seq<Byte>): (r: Result<(UInt64, seq<Byte>), WireError>)
    ensures r.Ok? ==> |r.value.1| < |b|
  {
    match ReadGroups(b, 10)
    case Err(e) => Err(e)
    case Ok((n, rest)) => Ok((n % TWO_64, rest))
  }

  /** Ten bytes are accepted for 32 bits as well; the upper bits are dropped. */
  function ReadVarint32(b: seq<Byte>): (r: Result<(UInt32, seq<Byte>), WireError>)
    ensures r.Ok? ==> |r.value.1| < |b|
  {
    match ReadGroups(b, 10)
    case Err(e) => Err(e)
    case Ok((n, rest)) => Ok((n % TWO_32, rest))
  }

  function ReadRaw(b: seq<Byte>, n: nat): (r: Result<(seq<Byte>, seq<Byte>), WireError>)
    ensures r.Ok? ==> |r.value.0| == n && r.value.0 + r.value.1 == b
  {
    if n <= |b| then Ok((b[..n], b[n..])) else Err(Truncated)
  }

  function ReadBytes(b: seq<Byte>): (r: Result<(ByteString, seq<Byte>), WireError>)
    ensures r.Ok? ==> |r.value.1| < |b|
  {
    match ReadVarint32(b)
    case Err(e) => Err(e)
    case Ok((n, rest)) => if n >= TWO_31 then Err(NegativeSize) else ReadRaw(rest, n)
  }

  function ReadTag(b: seq<Byte>): (r: Result<(UInt32, seq<Byte>), WireError>)
    ensures r.Ok? ==> |r.value.1| < |b| && r.value.0 >= 8
  {
    match ReadVarint32(b)
    case Err(e) => Err(e)
    case Ok((tag, rest)) => if tag / 8 == 0 then Err(InvalidTag) else Ok((tag, rest))
  }

  /** What follows a tag: the rest of a record, the end of the enclosing group, or an error. */
  datatype Step = Next(record: Record, rest: seq<Byte>) | EndGroup(number: nat, rest: seq<Byte>) | Bad(error: WireError)

  function ReadValue(tag: UInt32, b: seq<Byte>): (s: Step)
    requires tag >= 8
    ensures s.Next? ==> |s.rest| <= |b| && s.record.number == tag / 8 && WireType(s.record.wire) == tag % 8
    ensures s.EndGroup? ==> s.rest == b && s.number == tag / 8 && tag % 8 == END_GROUP
    decreases |b|, 2
  {
    var number: FieldNumber := tag / 8;
    match tag % 8
    case 0 => (match ReadVarint64(b) case Err(e) => Bad(e) case Ok((n, rest)) => Next(Record(number, Varint(n)), rest))
    case 1 => (match ReadRaw(b, 8) case Err(e) => Bad(e) case Ok((x, rest)) => Next(Record(number, Fixed64(x)), rest))
    case 2 => (match ReadBytes(b) case Err(e) => Bad(e) case Ok((x, rest)) => Next(Record(number, Bytes(x)), rest))
    case 3 => (match ReadGroup(number, b)
               case Err(e) => Bad(e)
               case Ok((rs, rest)) => Next(Record(number, Group(rs)), rest))
    case 4 => EndGroup(number, b)
    case 5 => (match ReadRaw(b, 4) case Err(e) => Bad(e) case Ok((x, rest)) => Next(Record(number, Fixed32(x)), rest))
    case _ => Bad(InvalidWireType)
  }

  function ReadRecord(b: seq<Byte>): (s: Step)
    ensures (s.Next? || s.EndGroup?) ==> |s.rest| < |b|
    decreases |b|, 0
  {
    match ReadTag(b)
    case Err(e) => Bad(e)
    case Ok((tag, rest)) => ReadValue(tag, rest)
  }

  /** Records up to the end tag of the group. */
  function ReadGroup(number: FieldNumber, b: seq<Byte>): (r: Result<(seq<Record>, seq<Byte>), WireError>)
    ensures r.Ok? ==> |r.value.1| <= |b|
    decreases |b|, 1
  {
    if b == [] then Err(InvalidEndTag)
    else
      match ReadRecord(b)
      case Bad(e) => Err(e)
      case EndGroup(n, rest) => if n == number then Ok(([], rest)) else Err(InvalidEndTag)
      case Next(r, rest) =>
        match ReadGroup(number, rest)
        case Err(e) => Err(e)
        case Ok((rs, rest')) => Ok(([r] + rs, rest'))
  }

  /** Why a stream of records stops. */
  datatype Stop = AtEnd | AtEndGroup(number: nat, rest: seq<Byte>) | Failed(error: WireError)

  function Tokenise(b: seq<Byte>): (seq<Record>, Stop)
    decreases |b|
  {
    if b == [] then ([], AtEnd)
    else
      match ReadRecord(b)
      case Bad(e) => ([], Failed(e))
      case EndGroup(n, rest) => ([], AtEndGroup(n, rest))
      case Next(r, rest) => var (rs, stop) := Tokenise(rest); ([r] + rs, stop)
  }

  /** Whole records and nothing else. */
  predicate WellFormed(b: seq<Byte>) {
    Tokenise(b).1 == AtEnd
  }
}
