/** What calls on any number of builders and built messages mean, whatever the table of fields. */
module BuilderSession {
  import opened JavaInt
  import opened Wrappers
  import opened WireFormat
  import opened WireProperties
  import opened Messages
  import opened MessageProperties
  import opened BuilderStatus

  /** One call on a builder or on a built message. */
  datatype Command =
    | NewBuilder
    | Change(i: nat, change: Change)
    | Finish(i: nat, partial: bool)      // buildPartial or build
    | AskSize(j: nat)

  /** One call that changes the message under construction. */
  datatype Change =
    | SetField(number: nat, value: Option<Wire>)
    | ClearField(number: nat)
    | SetUnknown(fields: seq<Record>)    // inherited: setUnknownFields
    | AddUnknown(fields: seq<Record>)    // inherited: mergeUnknownFields
    | MergeBuilt(j: nat)
    | MergeBytes(bytes: seq<Byte>)
    | Clear

  /** The call exists, and its argument is there. */
  predicate IsCall(schema: Schema, change: Change, built: nat) {
    match change
    case SetField(number, value) => FitsField(schema, number, value)
    case ClearField(number) => 0 < number < |schema.kinds|
    case MergeBuilt(j) => j < built
    case _ => true
  }

  /** The messages under construction, None for a used-up builder, and the messages built and sizes
      reported so far. */
  datatype Session = Session(building: seq<Option<Message>>, built: seq<Message>, sizes: seq<(nat, Int32)>)
  {
    ghost predicate Valid(schema: Schema) {
      && (forall i | 0 <= i < |building| && building[i].Some? :: Conforms(schema, building[i].value))
      && (forall j | 0 <= j < |built| :: Conforms(schema, built[j]))
    }
  }

  function Changed(schema: Schema, m: Message, built: seq<Message>, change: Change): (m': Message)
    requires Conforms(schema, m) && (forall j | 0 <= j < |built| :: Conforms(schema, built[j]))
    requires IsCall(schema, change, |built|)
    ensures Fits(schema, m')
  {
    match change
    case SetField(number, value) => if value.None? then m else m.(known := m.known[number := value])
    case ClearField(number) => m.(known := m.known[number := None])
    case SetUnknown(fields) => m.(unknown := fields)
    case AddUnknown(fields) => m.(unknown := m.unknown + fields)
    case MergeBuilt(j) => assert Conforms(schema, built[j]); Merge(m, built[j])
    case MergeBytes(bytes) =>
      var (rs, stop) := Tokenise(bytes);
      var parsed := ApplyAll(schema, m, rs);
      if stop.Failed? then parsed.(unknown := m.unknown) else parsed
    case Clear => Default(schema)
  }

  lemma ChangedConforms(schema: Schema, m: Message, built: seq<Message>, change: Change)
    requires Conforms(schema, m) && (forall j | 0 <= j < |built| :: Conforms(schema, built[j]))
    requires IsCall(schema, change, |built|)
    ensures Conforms(schema, Changed(schema, m, built, change))
  {
    match change {
      case MergeBuilt(j) => assert Conforms(schema, built[j]);
      case MergeBytes(bytes) => AppliedConform(schema, m, Tokenise(bytes).0);
      case _ =>
    }
  }

  lemma {:induction false} AppliedConform(schema: Schema, m: Message, rs: seq<Record>)
    requires Conforms(schema, m)
    ensures Conforms(schema, ApplyAll(schema, m, rs))
    decreases rs
  {
    if rs != [] {
      AppliedConform(schema, Apply(schema, m, rs[0]), rs[1..]);
    }
  }

  /** A command that names nothing there is, or a used-up builder, changes nothing. */
  function After(schema: Schema, s: Session, c: Command): (s': Session)
    requires 0 < |schema.kinds| < 0x2000_0000 && s.Valid(schema)
    ensures s'.Valid(schema)
  {
    match c
    case NewBuilder => s.(building := s.building + [Some(Default(schema))])
    case Change(i, change) =>
      if i < |s.building| && s.building[i].Some? && IsCall(schema, change, |s.built|) then
        ChangedConforms(schema, s.building[i].value, s.built, change);
        s.(building := s.building[i := Some(Changed(schema, s.building[i].value, s.built, change))])
      else s
    case Finish(i, partial) =>
      if i < |s.building| && s.building[i].Some? && (partial || Initialised(schema, s.building[i].value))
      then s.(building := s.building[i := None], built := s.built + [s.building[i].value]) else s
    case AskSize(j) =>
      if j < |s.built| then s.(sizes := s.sizes + [(j, Wrap32(|Write(s.built[j])|))]) else s
  }

  function AfterAll(schema: Schema, script: seq<Command>): (s: Session)
    requires 0 < |schema.kinds| < 0x2000_0000
    ensures s.Valid(schema)
  {
    if script == [] then Session([], [], [])
    else After(schema, AfterAll(schema, script[..|script| - 1]), script[|script| - 1])
  }

  // ---------- one message each ----------

  /** How many builders are used up. */
  function UsedUp(building: seq<Option<Message>>): nat {
    if building == [] then 0
    else UsedUp(building[..|building| - 1]) + if building[|building| - 1].None? then 1 else 0
  }

  lemma {:induction false} UseOne(building: seq<Option<Message>>, i: nat, after: Option<Message>)
    requires i < |building| && building[i].Some?
    ensures UsedUp(building[i := after]) == UsedUp(building) + if after.None? then 1 else 0
    decreases |building|
  {
    var n := |building| - 1;
    if i < n {
      UseOne(building[..n], i, after);
      assert building[i := after][..n] == building[..n][i := after];
    } else {
      assert building[i := after][..n] == building[..n];
    }
  }

  /** In every run of calls each builder hands out at most one message, and is used up from then on: there
      are as many built messages as used-up builders. */
  lemma {:induction false} OneMessageEach(schema: Schema, script: seq<Command>)
    requires 0 < |schema.kinds| < 0x2000_0000
    ensures var s := AfterAll(schema, script); |s.built| == UsedUp(s.building)
    decreases |script|
  {
    if script != [] {
      var n := |script| - 1;
      var (s, c) := (AfterAll(schema, script[..n]), script[n]);
      OneMessageEach(schema, script[..n]);
      match c {
        case NewBuilder => assert (s.building + [Some(Default(schema))])[..|s.building|] == s.building;
        case AskSize(_) =>
        case _ =>
          if c.i < |s.building| && s.building[c.i].Some? {
            UseOne(s.building, c.i, After(schema, s, c).building[c.i]);
          }
      }
    }
  }

  // ---------- what comes back ----------

  ghost predicate NoneRecognised(schema: Schema, rs: seq<Record>) {
    forall r | r in rs :: !Recognises(schema, r)
  }

  predicate ByHand(change: Change) {
    change.SetUnknown? || change.AddUnknown?
  }

  /** No unknown records are put in by hand that are fields of the table. */
  ghost predicate Honest(schema: Schema, script: seq<Command>) {
    forall i | 0 <= i < |script| && script[i].Change? && ByHand(script[i].change) ::
      NoneRecognised(schema, script[i].change.fields)
  }

  ghost predicate AllForeign(schema: Schema, s: Session) {
    && (forall i | 0 <= i < |s.building| && s.building[i].Some? :: NoneRecognised(schema, s.building[i].value.unknown))
    && (forall j | 0 <= j < |s.built| :: NoneRecognised(schema, s.built[j].unknown))
  }

  lemma {:induction false} UnrecognisedIsForeign(schema: Schema, rs: seq<Record>)
    ensures NoneRecognised(schema, Unrecognised(schema, rs))
    decreases rs
  {
    if rs != [] {
      UnrecognisedIsForeign(schema, rs[1..]);
    }
  }

  lemma ChangeKeepsForeign(schema: Schema, m: Message, built: seq<Message>, change: Change)
    requires Conforms(schema, m) && (forall j | 0 <= j < |built| :: Conforms(schema, built[j]))
    requires IsCall(schema, change, |built|) && NoneRecognised(schema, m.unknown)
    requires ByHand(change) ==> NoneRecognised(schema, change.fields)
    requires change.MergeBuilt? ==> NoneRecognised(schema, built[change.j].unknown)
    ensures NoneRecognised(schema, Changed(schema, m, built, change).unknown)
  {
    if change.MergeBytes? {
      var rs := Tokenise(change.bytes).0;
      LastOneWins(schema, m, rs);
      UnrecognisedIsForeign(schema, rs);
    }
  }

  lemma {:induction false} SessionsKeepForeign(schema: Schema, script: seq<Command>)
    requires 0 < |schema.kinds| < 0x2000_0000 && Honest(schema, script)
    ensures AllForeign(schema, AfterAll(schema, script))
    decreases |script|
  {
    if script != [] {
      var n := |script| - 1;
      var (s, c) := (AfterAll(schema, script[..n]), script[n]);
      assert forall i | 0 <= i < n :: script[..n][i] == script[i];
      SessionsKeepForeign(schema, script[..n]);
      if c.Change? && c.i < |s.building| && s.building[c.i].Some? && IsCall(schema, c.change, |s.built|) {
        ChangeKeepsForeign(schema, s.building[c.i].value, s.built, c.change);
      }
    }
  }

  /** Every initialised message that any run of calls builds is parsed back equal from its bytes, unless
      unknown records were put in by hand that are its own fields. */
  lemma BuiltMessagesComeBack(schema: Schema, script: seq<Command>, j: nat)
    requires Proper(schema) && Honest(schema, script) && j < |AfterAll(schema, script).built|
    ensures var m := AfterAll(schema, script).built[j];
            Initialised(schema, m) ==> ParseFrom(schema, Write(m)) == Ok(m)
  {
    SessionsKeepForeign(schema, script);
    var m := AfterAll(schema, script).built[j];
    assert Conforms(schema, m);
    if Initialised(schema, m) {
      RoundTrip(schema, m);
    }
  }

  /** The inputs that do not come back: a message with one of its own fields among the unknown records,
      which takes the inherited `setUnknownFields`.  The record overwrites the field. */
  lemma OwnFieldAmongUnknown(schema: Schema, m: Message, record: Record)
    requires Proper(schema) && Conforms(schema, m) && Initialised(schema, m) && Recognises(schema, record)
    ensures var changed := Changed(schema, m, [], SetUnknown([record]));
            var value := Some(Canonical(schema.kinds[record.number], record.wire));
            && ParseFrom(schema, Write(changed)) == Ok(Message(m.known[record.number := value], []))
            && ParseFrom(schema, Write(changed)) != Ok(changed)
  {
    var changed := m.(unknown := [record]);
    RecordsRoundTrip(Records(changed));
    LastOneWins(schema, Default(schema), Records(changed));
    UnrecognisedConcat(schema, KnownRecords(m.known, |m.known|), [record]);
    KnownRecordsParse(schema, m, |m.known|);
    OneRecord(schema, record, 0);
    var parsed := ApplyAll(schema, Default(schema), Records(changed));
    forall n | 0 <= n < |m.known|
      ensures parsed.known[n] == if n == record.number then Some(Canonical(schema.kinds[n], record.wire))
              else m.known[n]
    {
      OverwrittenValue(schema, m, record, n);
    }
    assert parsed.known == m.known[record.number := Some(Canonical(schema.kinds[record.number], record.wire))];
  }

  /** A request of the smallest values with another id among its unknown records. */
  function RequestWithTwoIds(): Message {
    var (zero, empty, no) := (Some(Varint(0)), Some(Bytes([])), Some(Varint(0)));
    Message([None, zero, zero, empty, None, None, empty, zero, None, no, no, no], [Record(1, Varint(5))])
  }

  lemma RequestDoesNotComeBack()
    ensures var m := RequestWithTwoIds();
            && Conforms(REQUEST, m) && Initialised(REQUEST, m)
            && ParseFrom(REQUEST, Write(m)) == Ok(Message(m.known[1 := Some(Varint(5))], []))
            && ParseFrom(REQUEST, Write(m)) != Ok(m)
  {
    RequestIsProper();
    OwnFieldAmongUnknown(REQUEST, RequestWithTwoIds().(unknown := []), Record(1, Varint(5)));
  }

  lemma RequestIsProper()
    ensures Conforms(REQUEST, RequestWithTwoIds()) && Initialised(REQUEST, RequestWithTwoIds())
    ensures Proper(REQUEST) && Recognises(REQUEST, Record(1, Varint(5)))
    ensures Canonical(REQUEST.kinds[1], Varint(5)) == Varint(5)
  {
  }

  lemma OverwrittenValue(schema: Schema, m: Message, record: Record, n: nat)
    requires Proper(schema) && Conforms(schema, m) && Recognises(schema, record) && n < |m.known|
    ensures LastValue(schema, KnownRecords(m.known, |m.known|) + [record], n) ==
            if n == record.number then Some(Canonical(schema.kinds[n], record.wire)) else m.known[n]
  {
    KnownRecordsParse(schema, m, |m.known|);
    LastValueConcat(schema, KnownRecords(m.known, |m.known|), [record], n);
    OneRecord(schema, record, n);
  }
}
