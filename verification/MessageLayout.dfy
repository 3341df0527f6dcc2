/** The bytes of the two messages, field by field, with their tags as numbers. */
module MessageLayout {
  import opened Wrappers
  import opened WireFormat
  import opened Messages
  import opened CodedStreams
  import RemoteRequests
  import RemoteReplies

  function Number(present: bool, tag: Byte, value: nat): seq<Byte> {
    if present then [tag] + EncodeVarint(value) else []
  }

  function Flag(present: bool, tag: Byte, value: bool): seq<Byte> {
    if !present then [] else if value then [tag, 1] else [tag, 0]
  }

  function Counted(present: bool, tag: Byte, value: ByteString): seq<Byte> {
    if present then [tag] + (EncodeVarint(|value|) + value) else []
  }

  lemma FieldLayout(known: seq<Option<Wire>>, n: nat, tag: Byte)
    requires 0 < n < |known| <= 16 && (known[n].Some? ==> tag == 8 * n + WireType(known[n].value) && tag < 128)
    ensures FieldBytes(known, n) == if known[n].Some? then [tag] + Payload(Record(n, known[n].value)) else []
  {
  }

  lemma FieldIsAppended(known: seq<Option<Wire>>, n: nat)
    requires 0 < n < |known| < 0x2000_0000
    ensures Prefix(known, n + 1) == Prefix(known, n) + FieldBytes(known, n)
  {
    PrefixStep(known, n, []);
    assert [] + Prefix(known, n + 1) == Prefix(known, n + 1) && [] + Prefix(known, n) == Prefix(known, n);
  }

  lemma UnknownIsAppended(m: Message)
    requires 0 < |m.known| < 0x2000_0000
    ensures Write(m) == Prefix(m.known, |m.known|) + EncodeRecords(m.unknown)
  {
    PrefixEnd(m, []);
    assert [] + Prefix(m.known, |m.known|) == Prefix(m.known, |m.known|) && [] + Write(m) == Write(m);
  }

  // ---------- request ----------

  /** Field n of a request. */
  function RequestField(r: RemoteRequests.RemoteRequest, n: nat): seq<Byte>
    reads r
  {
    match n
    case 1 => Number(r.hasId, 8, r.id_)
    case 2 => Number(r.hasProtocol, 16, r.protocol_)
    case 3 => Counted(r.hasMessage, 26, r.message_)
    case 4 => Counted(r.hasMessageManifest, 34, r.messageManifest_)
    case 5 => Counted(r.hasMethod, 42, r.method_)
    case 6 => Counted(r.hasTarget, 50, r.target_)
    case 7 => Number(r.hasTimeout, 56, r.timeout_)
    case 8 => Counted(r.hasSupervisorUuid, 66, r.supervisorUuid_)
    case 9 => Flag(r.hasIsActor, 72, r.isActor_)
    case 10 => Flag(r.hasIsOneWay, 80, r.isOneWay_)
    case 11 => Flag(r.hasIsEscaped, 88, r.isEscaped_)
    case _ => []
  }

  /** The fields up to number k, in the order of their numbers. */
  function RequestFields(r: RemoteRequests.RemoteRequest, k: nat): seq<Byte>
    reads r
  {
    if k == 0 then [] else RequestFields(r, k - 1) + RequestField(r, k)
  }

  /** What `writeTo` writes: these fields, and then the unknown records. */
  lemma RequestLayout(r: RemoteRequests.RemoteRequest)
    ensures Write(r.Value()) == RequestFields(r, 11) + EncodeRecords(r.unknownFields)
  {
    RequestFieldsAreWritten(r, 11);
    UnknownIsAppended(r.Value());
  }

  lemma {:induction false} RequestFieldsAreWritten(r: RemoteRequests.RemoteRequest, k: nat)
    requires k <= 11
    ensures Prefix(r.Known(), k + 1) == RequestFields(r, k)
    decreases k
  {
    if k > 0 {
      RequestFieldsAreWritten(r, k - 1);
      FieldIsAppended(r.Known(), k);
      RequestFieldIsWritten(r, k);
    }
  }

  lemma RequestFieldIsWritten(r: RemoteRequests.RemoteRequest, n: nat)
    requires 0 < n <= 11
    ensures FieldBytes(r.Known(), n) == RequestField(r, n)
  {
    FieldLayout(r.Known(), n, 8 * n + if n in {3, 4, 5, 6, 8} then 2 else 0);
  }

  // ---------- reply ----------

  /** Field n of a reply. */
  function ReplyField(r: RemoteReplies.RemoteReply, n: nat): seq<Byte>
    reads r
  {
    match n
    case 1 => Number(r.hasId, 8, r.id_)
    case 2 => Number(r.hasProtocol, 16, r.protocol_)
    case 3 => Counted(r.hasMessage, 26, r.message_)
    case 4 => Counted(r.hasMessageManifest, 34, r.messageManifest_)
    case 5 => Counted(r.hasException, 42, r.exception_)
    case 6 => Counted(r.hasSupervisorUuid, 50, r.supervisorUuid_)
    case 7 => Flag(r.hasIsActor, 56, r.isActor_)
    case 8 => Flag(r.hasIsSuccessful, 64, r.isSuccessful_)
    case _ => []
  }

  /** The fields up to number k, in the order of their numbers. */
  function ReplyFields(r: RemoteReplies.RemoteReply, k: nat): seq<Byte>
    reads r
  {
    if k == 0 then [] else ReplyFields(r, k - 1) + ReplyField(r, k)
  }

  /** What `writeTo` writes: these fields, and then the unknown records. */
  lemma ReplyLayout(r: RemoteReplies.RemoteReply)
    ensures Write(r.Value()) == ReplyFields(r, 8) + EncodeRecords(r.unknownFields)
  {
    ReplyFieldsAreWritten(r, 8);
    UnknownIsAppended(r.Value());
  }

  lemma {:induction false} ReplyFieldsAreWritten(r: RemoteReplies.RemoteReply, k: nat)
    requires k <= 8
    ensures Prefix(r.Known(), k + 1) == ReplyFields(r, k)
    decreases k
  {
    if k > 0 {
      ReplyFieldsAreWritten(r, k - 1);
      FieldIsAppended(r.Known(), k);
      ReplyFieldIsWritten(r, k);
    }
  }

  lemma ReplyFieldIsWritten(r: RemoteReplies.RemoteReply, n: nat)
    requires 0 < n <= 8
    ensures FieldBytes(r.Known(), n) == ReplyField(r, n)
  {
    FieldLayout(r.Known(), n, 8 * n + if n in {3, 4, 5, 6} then 2 else 0);
  }
}
