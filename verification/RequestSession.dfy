/** Any number of builders and built requests in one heap, used in any order. */
module RequestSession {
  import opened JavaInt
  import opened Wrappers
  import opened WireFormat
  import opened Messages
  import opened MessageProperties
  import opened CodedStreams
  import opened BuilderStatus
  import opened BuilderSession
  import opened RemoteRequests

  /** Every builder holds its message, which belongs to no other builder and is not built yet. */
  ghost predicate Owned(builders: seq<Builder>, built: seq<RemoteRequest>, building: seq<Option<Message>>)
    reads builders, set b | b in builders :: b.result
  {
    && |builders| == |building|
    && (forall i | 0 <= i < |builders| ::
          && builders[i].Unsized() && builders[i].result !in built
          && building[i] == (if builders[i].result == null then None else Some(builders[i].result.Value())))
    && (forall i, j | 0 <= i < j < |builders| ::
          builders[i] != builders[j] && (builders[i].result != null ==> builders[i].result != builders[j].result))
  }

  /** Built requests are as they were when they were built, and their memoized size is exact. */
  ghost predicate Intact(built: seq<RemoteRequest>, values: seq<Message>)
    reads built
  {
    && |built| == |values|
    && (forall j | 0 <= j < |built| :: built[j].Value() == values[j] && built[j].MemoIsExact())
    && (forall i, j | 0 <= i < j < |built| :: built[i] != built[j])
  }

  /** The session as it is represented by objects of repr. */
  ghost predicate Represents(repr: set<object>, builders: seq<Builder>, built: seq<RemoteRequest>, s: Session)
    reads repr
  {
    && (forall b | b in builders :: b in repr && (b.result != null ==> b.result in repr))
    && (forall m | m in built :: m in repr)
    && Owned(builders, built, s.building) && Intact(built, s.built)
  }

  /** In every run of commands builders and requests sharing one heap behave like independent values:
      a built request never changes, and every size reported is the exact one, as a Java int. */
  method Run(script: seq<Command>, defaultInstance: RemoteRequest)
    returns (built: seq<RemoteRequest>, sizes: seq<(nat, Int32)>)
    requires defaultInstance.Value() == Default(REQUEST)
    ensures Intact(built, AfterAll(REQUEST, script).built)
    ensures sizes == AfterAll(REQUEST, script).sizes
  {
    var builders: seq<Builder> := [];
    built, sizes := [], [];
    ghost var repr: set<object> := {};
    for k := 0 to |script|
      invariant fresh(repr) && Represents(repr, builders, built, AfterAll(REQUEST, script[..k]))
      invariant sizes == AfterAll(REQUEST, script[..k]).sizes
    {
      assert script[..k + 1][..k] == script[..k];
      ghost var s := AfterAll(REQUEST, script[..k]);
      builders, built, sizes, repr := RunOne(script[k], builders, built, sizes, defaultInstance, s, repr);
    }
    assert script[..|script|] == script;
  }

  method RunOne(c: Command, builders: seq<Builder>, built: seq<RemoteRequest>, sizes: seq<(nat, Int32)>,
                defaultInstance: RemoteRequest, ghost s: Session, ghost repr: set<object>)
    returns (builders': seq<Builder>, built': seq<RemoteRequest>, sizes': seq<(nat, Int32)>, ghost repr': set<object>)
    requires s.Valid(REQUEST) && Represents(repr, builders, built, s) && sizes == s.sizes
    requires defaultInstance !in repr && defaultInstance.Value() == Default(REQUEST)
    modifies repr
    ensures Represents(repr', builders', built', After(REQUEST, s, c)) && sizes' == After(REQUEST, s, c).sizes
    ensures fresh(repr' - repr)
  {
    builders', built', sizes', repr' := builders, built, sizes, repr;
    match c {
      case NewBuilder =>
        builders', repr' := NewOne(builders, built, s, repr);
      case AskSize(j) =>
        if j < |built| {
          var size := AskOne(built[j], builders, built, j, s);
          sizes' := sizes + [(j, size)];
        }
      case _ =>
        if c.i < |builders| {
          var b := builders[c.i];
          built' := CallOne(c, b, builders, built, defaultInstance, s);
          repr' := if b.result == null then repr else repr + {b.result};
        }
    }
  }

  method NewOne(builders: seq<Builder>, ghost built: seq<RemoteRequest>, ghost s: Session, ghost repr: set<object>)
    returns (builders': seq<Builder>, ghost repr': set<object>)
    requires s.Valid(REQUEST) && Represents(repr, builders, built, s)
    ensures Represents(repr', builders', built, After(REQUEST, s, NewBuilder)) && fresh(repr' - repr)
  {
    var b := new Builder();
    builders', repr' := builders + [b], repr + {b, b.result};
  }

  method AskOne(m: RemoteRequest, ghost builders: seq<Builder>, ghost built: seq<RemoteRequest>, ghost j: nat,
                ghost s: Session)
    returns (size: Int32)
    requires Owned(builders, built, s.building) && Intact(built, s.built) && j < |built| && m == built[j]
    modifies m`memoizedSerializedSize
    ensures Owned(builders, built, s.building) && Intact(built, s.built) && size == Wrap32(|Write(s.built[j])|)
  {
    size := m.GetSerializedSize();
  }

  /** A call on builder b. */
  method CallOne(c: Command, b: Builder, ghost builders: seq<Builder>, built: seq<RemoteRequest>,
                 defaultInstance: RemoteRequest, ghost s: Session)
    returns (built': seq<RemoteRequest>)
    requires s.Valid(REQUEST) && Owned(builders, built, s.building) && Intact(built, s.built)
    requires (c.Change? || c.Finish?) && c.i < |builders| && b == builders[c.i]
    requires defaultInstance != b.result && defaultInstance.Value() == Default(REQUEST)
    modifies b, b.result
    ensures Owned(builders, built', After(REQUEST, s, c).building) && Intact(built', After(REQUEST, s, c).built)
    ensures b.result == old(b.result) || b.result == null || fresh(b.result)
    ensures built' == built || (old(b.result) != null && built' == built + [old(b.result)])
  {
    built' := built;
    match c {
      case Finish(i, partial) =>
        built' := FinishOne(b, builders, i, partial, built, s);
      case Change(i, change) =>
        if IsCall(REQUEST, change, |built|) {
          ChangeOne(b, builders, i, built, change, defaultInstance, s);
        }
    }
  }

  method ChangeOne(b: Builder, ghost builders: seq<Builder>, ghost i: nat, built: seq<RemoteRequest>, change: Change,
                   defaultInstance: RemoteRequest, ghost s: Session)
    requires s.Valid(REQUEST) && Owned(builders, built, s.building) && Intact(built, s.built)
    requires i < |builders| && b == builders[i] && IsCall(REQUEST, change, |built|)
    requires defaultInstance != b.result && defaultInstance.Value() == Default(REQUEST)
    modifies b, b.result
    ensures Owned(builders, built, After(REQUEST, s, Change(i, change)).building) && Intact(built, s.built)
    ensures b.result == old(b.result) || fresh(b.result)
  {
    ghost var m := s.building[i];
    var other := if change.MergeBuilt? then built[change.j] else defaultInstance;
    assert change.MergeBuilt? ==> other in built;
    MakeChange(b, change, other, defaultInstance, s.built);
  }

  /** The change on the message of b alone; other is the message to merge, if that is the change. */
  method MakeChange(b: Builder, change: Change, other: RemoteRequest, defaultInstance: RemoteRequest,
                    ghost built: seq<Message>)
    requires b.Unsized() && (b.result != null ==> Conforms(REQUEST, b.result.Value()))
    requires other != b.result && defaultInstance != b.result && defaultInstance.Value() == Default(REQUEST)
    requires IsCall(REQUEST, change, |built|) && forall j | 0 <= j < |built| :: Conforms(REQUEST, built[j])
    requires change.MergeBuilt? ==> other.Value() == built[change.j]
    modifies b, b.result
    ensures b.Unsized() && (b.result == old(b.result) || fresh(b.result))
    ensures old(b.result) == null <==> b.result == null
    ensures old(b.result) != null ==> b.result.Value() == Changed(REQUEST, old(b.result.Value()), built, change)
  {
    var status;
    match change {
      case SetField(number, value) => status := b.SetField(number, value);
      case ClearField(number) => status := b.ClearField(number);
      case SetUnknown(fields) => status := b.SetUnknownFields(fields);
      case AddUnknown(fields) => status := b.MergeUnknownFields(fields);
      case MergeBuilt(_) => status := b.MergeFrom(other, defaultInstance);
      case MergeBytes(bytes) =>
        var input := new CodedInputStream(bytes);
        var r := b.MergeFromStream(input);
      case Clear => status := b.Clear();
    }
  }

  method FinishOne(b: Builder, ghost builders: seq<Builder>, ghost i: nat, partial: bool, built: seq<RemoteRequest>,
                   ghost s: Session)
    returns (built': seq<RemoteRequest>)
    requires s.Valid(REQUEST) && Owned(builders, built, s.building) && Intact(built, s.built)
    requires i < |builders| && b == builders[i]
    modifies b`result
    ensures var s' := After(REQUEST, s, Finish(i, partial));
            Owned(builders, built', s'.building) && Intact(built', s'.built)
    ensures b.result == old(b.result) || b.result == null
    ensures built' == built || (old(b.result) != null && built' == built + [old(b.result)])
  {
    var r := BuildEither(b, partial);
    built' := if r.Ok? then built + [r.value] else built;
  }

  /** `buildPartial` or `build`. */
  method BuildEither(b: Builder, partial: bool) returns (r: Result<RemoteRequest, Status>)
    modifies b`result
    ensures if old(b.result) != null && (partial || Initialised(REQUEST, old(b.result.Value())))
            then r == Ok(old(b.result)) && b.result == null
            else r.Err? && b.result == old(b.result)
  {
    if partial {
      r := b.BuildPartial();
    } else {
      r := b.Build();
    }
  }

  /** A request written and parsed again is the same request, exactly when none of its unknown records
      is a field of a request. */
  method WriteAndParse(message: RemoteRequest) returns (r: Result<RemoteRequest, Status>)
    ensures var m := message.Value();
            if Initialised(REQUEST, m) then
              r.Ok? && (r.value.Value() == m <==> forall u | u in m.unknown :: !Recognises(REQUEST, u))
            else
              (forall u | u in m.unknown :: !Recognises(REQUEST, u)) ==> r == Err(Uninitialised)
  {
    var output := new CodedOutputStream();
    message.WriteTo(output);
    assert output.bytes == Write(message.Value());
    r := Builder.ParseFrom(output.bytes);
    message.ValueConforms();
    assert Proper(REQUEST);
    if Initialised(REQUEST, message.Value()) {
      RoundTrip(REQUEST, message.Value());
    } else {
      UninitialisedIsRejected(REQUEST, message.Value());
    }
  }
}
