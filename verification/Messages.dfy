/**
 Messages as the generated code sees them: fields known by number, and the records nobody knows.

 Parsing, merging and writing are defined for any table of fields; `REQUEST` and `REPLY` are the two
 tables of the repository.
 */
module Messages {
  import opened Wrappers
  import opened WireFormat

  datatype Kind = Unused | UInt64Field | UInt32Field | BoolField | BytesField

  /** kinds[n] describes field n; required lists the fields that `isInitialized` asks for. */
  datatype Schema = Schema(kinds: seq<Kind>, required: set<nat>)

  const REQUEST := Schema(
    [Unused, UInt64Field, UInt32Field, BytesField, BytesField, BytesField, BytesField, UInt64Field, BytesField,
     BoolField, BoolField, BoolField],
    {1, 2, 3, 6, 7, 9, 10, 11})

  const REPLY := Schema(
    [Unused, UInt64Field, UInt32Field, BytesField, BytesField, BytesField, BytesField, BoolField, BoolField],
    {1, 7, 8})

  /** known[n] is field n if it is present, in the form in which it is written. */
  datatype Message = Message(known: seq<Option<Wire>>, unknown: seq<Record>)

  predicate Matches(kind: Kind, w: Wire) {
    match kind
    case Unused => false
    case BytesField => w.Bytes?
    case _ => w.Varint?
  }

  /** The field value that a varint or byte string stands for, written again. */
  function Canonical(kind: Kind, w: Wire): Wire {
    match (kind, w)
    case (UInt32Field, Varint(v)) => Varint(v % TWO_32)
    case (BoolField, Varint(v)) => Varint(if v % TWO_32 != 0 then 1 else 0)
    case _ => w
  }

  predicate Recognises(schema: Schema, r: Record) {
    r.number < |schema.kinds| && Matches(schema.kinds[r.number], r.wire)
  }

  function Default(schema: Schema): Message {
    Message(seq(|schema.kinds|, _ => None), [])
  }

  predicate Fits(schema: Schema, m: Message) {
    |m.known| == |schema.kinds|
  }

  /** Every present field holds a value of its kind. */
  ghost predicate Conforms(schema: Schema, m: Message) {
    && Fits(schema, m)
    && forall n | 0 <= n < |m.known| && m.known[n].Some? ::
         Matches(schema.kinds[n], m.known[n].value) && Canonical(schema.kinds[n], m.known[n].value) == m.known[n].value
  }

  predicate Initialised(schema: Schema, m: Message) {
    forall n | n in schema.required :: n < |m.known| && m.known[n].Some?
  }

  /** One record parsed into a message under construction. */
  function Apply(schema: Schema, m: Message, r: Record): (m': Message)
    requires Fits(schema, m)
    ensures Fits(schema, m')
  {
    if Recognises(schema, r) then m.(known := m.known[r.number := Some(Canonical(schema.kinds[r.number], r.wire))])
    else m.(unknown := m.unknown + [r])
  }

  function ApplyAll(schema: Schema, m: Message, rs: seq<Record>): (m': Message)
    requires Fits(schema, m)
    ensures Fits(schema, m')
    decreases rs
  {
    if rs == [] then m else ApplyAll(schema, Apply(schema, m, rs[0]), rs[1..])
  }

  datatype ParseError = Malformed(error: WireError) | MissingRequired

  /** `parseFrom`: all of b, which must not stop at an end-group tag, and every required field. */
  function ParseFrom(schema: Schema, b: seq<Byte>): Result<Message, ParseError> {
    var (rs, stop) := Tokenise(b);
    match stop
    case Failed(e) => Err(Malformed(e))
    case AtEndGroup(_, _) => Err(Malformed(InvalidEndTag))
    case AtEnd =>
      var m := ApplyAll(schema, Default(schema), rs);
      if Initialised(schema, m) then Ok(m) else Err(MissingRequired)
  }

  /** `mergeFrom(other)`. */
  function Merge(m: Message, other: Message): (r: Message)
    requires |m.known| == |other.known|
    ensures |r.known| == |m.known|
  {
    Message(
      seq(|m.known|, n requires 0 <= n < |m.known| => if other.known[n].Some? then other.known[n] else m.known[n]),
      m.unknown + other.unknown)
  }

  /** The first k fields as they are written. */
  function KnownRecords(known: seq<Option<Wire>>, k: nat): seq<Record>
    requires k <= |known| < 0x2000_0000
  {
    if k <= 1 then [] else
      KnownRecords(known, k - 1) + if known[k - 1].Some? then [Record(k - 1, known[k - 1].value)] else []
  }

  function Records(m: Message): seq<Record>
    requires |m.known| < 0x2000_0000
  {
    KnownRecords(m.known, |m.known|) + m.unknown
  }

  /** `writeTo`. */
  function Write(m: Message): seq<Byte>
    requires |m.known| < 0x2000_0000
  {
    EncodeRecords(Records(m))
  }

  // ---------- last one wins ----------

  /** The value that the last recognised record of field n gives it. */
  function LastValue(schema: Schema, rs: seq<Record>, n: nat): Option<Wire> {
    if rs == [] then None
    else
      var later := LastValue(schema, rs[1..], n);
      if later.Some? then later
      else if rs[0].number == n && Recognises(schema, rs[0]) then Some(Canonical(schema.kinds[n], rs[0].wire))
      else None
  }

  function Unrecognised(schema: Schema, rs: seq<Record>): seq<Record> {
    if rs == [] then []
    else (if Recognises(schema, rs[0]) then [] else [rs[0]]) + Unrecognised(schema, rs[1..])
  }

  /** Parsing in closed form: per field the last recognised record, or what was there; every other
      record is kept in order. */
  lemma {:induction false} LastOneWins(schema: Schema, m: Message, rs: seq<Record>)
    requires Fits(schema, m)
    ensures var m' := ApplyAll(schema, m, rs);
            && m'.unknown == m.unknown + Unrecognised(schema, rs)
            && forall n | 0 <= n < |m.known| ::
                 m'.known[n] == if LastValue(schema, rs, n).Some? then LastValue(schema, rs, n) else m.known[n]
    decreases rs
  {
    if rs != [] {
      LastOneWins(schema, Apply(schema, m, rs[0]), rs[1..]);
    }
  }

  /** Field n occurs with its wire type. */
  ghost predicate Occurs(schema: Schema, rs: seq<Record>, n: nat) {
    exists r :: r in rs && r.number == n && Recognises(schema, r)
  }

  lemma {:induction false} LastValueExists(schema: Schema, rs: seq<Record>, n: nat)
    ensures LastValue(schema, rs, n).Some? <==> Occurs(schema, rs, n)
    decreases rs
  {
    if rs != [] {
      LastValueExists(schema, rs[1..], n);
      assert rs[0] in rs;
      assert forall r | r in rs :: r == rs[0] || r in rs[1..];
    }
  }

  /** On whole records `parseFrom` succeeds exactly when every required field occurs with its wire type. */
  lemma ParseSucceedsExactly(schema: Schema, b: seq<Byte>)
    requires WellFormed(b)
    ensures ParseFrom(schema, b).Ok? <==> forall n | n in schema.required :: Occurs(schema, Tokenise(b).0, n)
  {
    var rs := Tokenise(b).0;
    LastOneWins(schema, Default(schema), rs);
    forall n | n in schema.required {
      LastValueExists(schema, rs, n);
    }
  }
}
