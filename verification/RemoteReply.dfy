/** `RemoteReply` and its builder, field by field as they are generated. */
module RemoteReplies {
  import opened JavaInt
  import opened Wrappers
  import opened WireFormat
  import opened Messages
  import opened CodedStreams
  import opened BuilderStatus
  import opened MessageProperties

  class RemoteReply {
    var hasId: bool
    var id_: UInt64
    var hasProtocol: bool
    var protocol_: UInt32
    var hasMessage: bool
    var message_: ByteString
    var hasMessageManifest: bool
    var messageManifest_: ByteString
    var hasException: bool
    var exception_: ByteString
    var hasSupervisorUuid: bool
    var supervisorUuid_: ByteString
    var hasIsActor: bool
    var isActor_: bool
    var hasIsSuccessful: bool
    var isSuccessful_: bool
    var unknownFields: seq<Record>
    var memoizedSerializedSize: Int32

    constructor ()
      ensures Value() == Default(REPLY) && memoizedSerializedSize == -1
    {
      hasId, id_ := false, 0;
      hasProtocol, protocol_ := false, 0;
      hasMessage, message_ := false, [];
      hasMessageManifest, messageManifest_ := false, [];
      hasException, exception_ := false, [];
      hasSupervisorUuid, supervisorUuid_ := false, [];
      hasIsActor, isActor_ := false, false;
      hasIsSuccessful, isSuccessful_ := false, false;
      unknownFields, memoizedSerializedSize := [], -1;
      new;
      assert Known() == Default(REPLY).known;
    }

    /** Field n as it is written, if it is present. */
    function Field(n: nat): Option<Wire>
      reads this
    {
      if n == 1 then (if hasId then Some(Varint(id_)) else None)
      else if n == 2 then (if hasProtocol then Some(Varint(protocol_)) else None)
      else if n == 3 then (if hasMessage then Some(Bytes(message_)) else None)
      else if n == 4 then (if hasMessageManifest then Some(Bytes(messageManifest_)) else None)
      else if n == 5 then (if hasException then Some(Bytes(exception_)) else None)
      else if n == 6 then (if hasSupervisorUuid then Some(Bytes(supervisorUuid_)) else None)
      else if n == 7 then (if hasIsActor then Some(BoolWire(isActor_)) else None)
      else if n == 8 then (if hasIsSuccessful then Some(BoolWire(isSuccessful_)) else None)
      else None
    }

    function Known(): (known: seq<Option<Wire>>)
      reads this
      ensures |known| == 9 && forall n | 0 <= n < 9 :: known[n] == Field(n)
    {
      seq(9, n requires 0 <= n < 9 reads this => Field(n))
    }

    function Value(): Message
      reads this
    {
      Message(Known(), unknownFields)
    }

    /** The size is memoized as the exact one, or not at all. */
    ghost predicate MemoIsExact()
      reads this
    {
      memoizedSerializedSize == -1 || memoizedSerializedSize == Wrap32(|Write(Value())|)
    }

    lemma ValueConforms()
      ensures Conforms(REPLY, Value())
    {
      forall n | 0 <= n < 9 && Field(n).Some?
        ensures Matches(REPLY.kinds[n], Field(n).value) && Canonical(REPLY.kinds[n], Field(n).value) == Field(n).value
      {
        FieldConforms(n);
      }
    }

    lemma FieldConforms(n: nat)
      requires n < 9 && Field(n).Some?
      ensures Matches(REPLY.kinds[n], Field(n).value) && Canonical(REPLY.kinds[n], Field(n).value) == Field(n).value
    {
    }

    method IsInitialized() returns (b: bool)
      ensures b == Initialised(REPLY, Value())
    {
      if !hasId {
        return false;
      }
      if !hasIsActor {
        return false;
      }
      if !hasIsSuccessful {
        return false;
      }
      return true;
    }

    method WriteTo(output: CodedOutputStream)
      modifies output
      ensures output.bytes == old(output.bytes) + Write(Value())
    {
      ghost var start := output.bytes;
      PrefixStart(Known(), start);
      WriteFields1To3(output, start);
      WriteFields4To6(output, start);
      WriteFields7To8(output, start);
      output.WriteUnknown(unknownFields);
      PrefixEnd(Value(), start);
    }

    method WriteFields1To3(output: CodedOutputStream, ghost start: seq<Byte>)
      requires output.bytes == start + Prefix(Known(), 1)
      modifies output
      ensures output.bytes == start + Prefix(Known(), 4)
    {
      ghost var known := Known();
      PrefixStep(known, 1, start);
      if hasId {
        output.WriteUInt64(1, id_);
      }
      assert output.bytes == start + Prefix(known, 2);
      PrefixStep(known, 2, start);
      if hasProtocol {
        output.WriteUInt32(2, protocol_);
      }
      assert output.bytes == start + Prefix(known, 3);
      PrefixStep(known, 3, start);
      if hasMessage {
        output.WriteBytes(3, message_);
      }
      assert output.bytes == start + Prefix(known, 4);
    }

    method WriteFields4To6(output: CodedOutputStream, ghost start: seq<Byte>)
      requires output.bytes == start + Prefix(Known(), 4)
      modifies output
      ensures output.bytes == start + Prefix(Known(), 7)
    {
      ghost var known := Known();
      PrefixStep(known, 4, start);
      if hasMessageManifest {
        output.WriteBytes(4, messageManifest_);
      }
      assert output.bytes == start + Prefix(known, 5);
      PrefixStep(known, 5, start);
      if hasException {
        output.WriteBytes(5, exception_);
      }
      assert output.bytes == start + Prefix(known, 6);
      PrefixStep(known, 6, start);
      if hasSupervisorUuid {
        output.WriteBytes(6, supervisorUuid_);
      }
      assert output.bytes == start + Prefix(known, 7);
    }

    method WriteFields7To8(output: CodedOutputStream, ghost start: seq<Byte>)
      requires output.bytes == start + Prefix(Known(), 7)
      modifies output
      ensures output.bytes == start + Prefix(Known(), 9)
    {
      ghost var known := Known();
      PrefixStep(known, 7, start);
      if hasIsActor {
        output.WriteBool(7, isActor_);
      }
      assert output.bytes == start + Prefix(known, 8);
      PrefixStep(known, 8, start);
      if hasIsSuccessful {
        output.WriteBool(8, isSuccessful_);
      }
      assert output.bytes == start + Prefix(known, 9);
    }

    method GetSerializedSize() returns (size: Int32)
      requires MemoIsExact()
      modifies `memoizedSerializedSize
      ensures MemoIsExact() && size == Wrap32(|Write(Value())|) && Value() == old(Value())
    {
      size := memoizedSerializedSize;
      if size != -1 {
        return;
      }
      size := ComputeSize();
      ghost var known := Known();
      memoizedSerializedSize := size;
      assert Known() == known;
    }

    method ComputeSize() returns (size: Int32)
      ensures size == Wrap32(|Write(Value())|)
    {
      PrefixStart(Known(), []);
      size := 0;
      size := AddSizes1To2(size);
      size := AddSizes3To4(size);
      size := AddSizes5To6(size);
      size := AddSizes7To8(size);
      size := Wrap32(size + |EncodeRecords(unknownFields)|);
      PrefixEnd(Value(), []);
      WrapsOnce(|Prefix(Known(), 9)|, |EncodeRecords(unknownFields)|);
    }

    method AddSizes1To2(before: Int32) returns (size: Int32)
      requires before == Wrap32(|Prefix(Known(), 1)|)
      ensures size == Wrap32(|Prefix(Known(), 3)|)
    {
      size := before;
      PrefixSizeStep(Known(), 1, size);
      if hasId {
        UInt64SizeIsExact(1, id_);
        size := Wrap32(size + ComputeUInt64Size(1, id_));
      }
      assert size == Wrap32(|Prefix(Known(), 2)|);
      PrefixSizeStep(Known(), 2, size);
      if hasProtocol {
        UInt64SizeIsExact(2, protocol_);
        size := Wrap32(size + ComputeUInt64Size(2, protocol_));
      }
      assert size == Wrap32(|Prefix(Known(), 3)|);
    }

    method AddSizes3To4(before: Int32) returns (size: Int32)
      requires before == Wrap32(|Prefix(Known(), 3)|)
      ensures size == Wrap32(|Prefix(Known(), 5)|)
    {
      size := before;
      PrefixSizeStep(Known(), 3, size);
      if hasMessage {
        BytesSizeIsExact(3, message_);
        size := Wrap32(size + ComputeBytesSize(3, message_));
      }
      assert size == Wrap32(|Prefix(Known(), 4)|);
      PrefixSizeStep(Known(), 4, size);
      if hasMessageManifest {
        BytesSizeIsExact(4, messageManifest_);
        size := Wrap32(size + ComputeBytesSize(4, messageManifest_));
      }
      assert size == Wrap32(|Prefix(Known(), 5)|);
    }

    method AddSizes5To6(before: Int32) returns (size: Int32)
      requires before == Wrap32(|Prefix(Known(), 5)|)
      ensures size == Wrap32(|Prefix(Known(), 7)|)
    {
      size := before;
      PrefixSizeStep(Known(), 5, size);
      if hasException {
        BytesSizeIsExact(5, exception_);
        size := Wrap32(size + ComputeBytesSize(5, exception_));
      }
      assert size == Wrap32(|Prefix(Known(), 6)|);
      PrefixSizeStep(Known(), 6, size);
      if hasSupervisorUuid {
        BytesSizeIsExact(6, supervisorUuid_);
        size := Wrap32(size + ComputeBytesSize(6, supervisorUuid_));
      }
      assert size == Wrap32(|Prefix(Known(), 7)|);
    }

    method AddSizes7To8(before: Int32) returns (size: Int32)
      requires before == Wrap32(|Prefix(Known(), 7)|)
      ensures size == Wrap32(|Prefix(Known(), 9)|)
    {
      size := before;
      PrefixSizeStep(Known(), 7, size);
      if hasIsActor {
        BoolSizeIsExact(7, isActor_);
        size := Wrap32(size + ComputeBoolSize(7, isActor_));
      }
      assert size == Wrap32(|Prefix(Known(), 8)|);
      PrefixSizeStep(Known(), 8, size);
      if hasIsSuccessful {
        BoolSizeIsExact(8, isSuccessful_);
        size := Wrap32(size + ComputeBoolSize(8, isSuccessful_));
      }
      assert size == Wrap32(|Prefix(Known(), 9)|);
    }

  }

  /** Builds one message; after `buildPartial` there is no message left to change. */
  class Builder {
    var result: RemoteReply?

    constructor ()
      ensures fresh(result) && result != null && result.Value() == Default(REPLY) && Unsized()
    {
      result := new RemoteReply();
    }

    /** The size of a message under construction has not been asked for. */
    ghost predicate Unsized()
      reads this, result
    {
      result != null ==> result.memoizedSerializedSize == -1
    }

    method Clear() returns (s: Status)
      modifies this
      ensures s == if old(result) == null then IllegalState else Done
      ensures old(result) == null ==> result == null
      ensures old(result) != null ==> result != null && fresh(result) && result.Value() == Default(REPLY) && Unsized()
    {
      if result == null {
        return IllegalState;
      }
      result := new RemoteReply();
      return Done;
    }

    method BuildPartial() returns (r: Result<RemoteReply, Status>)
      modifies `result
      ensures result == null
      ensures old(result) == null ==> r == Err(IllegalState)
      ensures old(result) != null ==> r == Ok(old(result))
    {
      if result == null {
        return Err(IllegalState);
      }
      var returnMe := result;
      result := null;
      return Ok(returnMe);
    }

    method Build() returns (r: Result<RemoteReply, Status>)
      modifies `result
      ensures old(result) == null ==> r == Err(IllegalState) && result == null
      ensures old(result) != null ==>
                if Initialised(REPLY, old(result.Value())) then r == Ok(old(result)) && result == null
                else r == Err(Uninitialised) && result == old(result)
    {
      if result != null {
        var initialised := result.IsInitialized();
        if !initialised {
          return Err(Uninitialised);
        }
      }
      r := BuildPartial();
    }

    /** Unlike `build`, it asks the missing message itself. */
    method BuildParsed() returns (r: Result<RemoteReply, Status>)
      modifies `result
      ensures old(result) == null ==> r == Err(NullPointer) && result == null
      ensures old(result) != null ==>
                if Initialised(REPLY, old(result.Value())) then r == Ok(old(result)) && result == null
                else r == Err(Uninitialised) && result == old(result)
    {
      if result == null {
        return Err(NullPointer);
      }
      r := Build();
    }

    method SetId(value: UInt64) returns (s: Status)
      modifies result
      ensures Assigned(s, 1, Some(Varint(value)))
    {
      if result == null {
        return NullPointer;
      }
      result.hasId := true;
      result.id_ := value;
      return Done;
    }

    method ClearId() returns (s: Status)
      modifies result
      ensures Assigned(s, 1, None)
    {
      if result == null {
        return NullPointer;
      }
      result.hasId := false;
      result.id_ := 0;
      return Done;
    }

    method SetProtocol(value: UInt32) returns (s: Status)
      modifies result
      ensures Assigned(s, 2, Some(Varint(value)))
    {
      if result == null {
        return NullPointer;
      }
      result.hasProtocol := true;
      result.protocol_ := value;
      return Done;
    }

    method ClearProtocol() returns (s: Status)
      modifies result
      ensures Assigned(s, 2, None)
    {
      if result == null {
        return NullPointer;
      }
      result.hasProtocol := false;
      result.protocol_ := 0;
      return Done;
    }

    method SetMessage(value: Option<ByteString>) returns (s: Status)
      modifies result
      ensures if value.None? then Refused(s) else Assigned(s, 3, Some(Bytes(value.value)))
    {
      if value.None? || result == null {
        return NullPointer;
      }
      result.hasMessage := true;
      result.message_ := value.value;
      return Done;
    }

    method ClearMessage() returns (s: Status)
      modifies result
      ensures Assigned(s, 3, None)
    {
      if result == null {
        return NullPointer;
      }
      result.hasMessage := false;
      result.message_ := [];
      return Done;
    }

    method SetMessageManifest(value: Option<ByteString>) returns (s: Status)
      modifies result
      ensures if value.None? then Refused(s) else Assigned(s, 4, Some(Bytes(value.value)))
    {
      if value.None? || result == null {
        return NullPointer;
      }
      result.hasMessageManifest := true;
      result.messageManifest_ := value.value;
      return Done;
    }

    method ClearMessageManifest() returns (s: Status)
      modifies result
      ensures Assigned(s, 4, None)
    {
      if result == null {
        return NullPointer;
      }
      result.hasMessageManifest := false;
      result.messageManifest_ := [];
      return Done;
    }

    method SetException(value: Option<ByteString>) returns (s: Status)
      modifies result
      ensures if value.None? then Refused(s) else Assigned(s, 5, Some(Bytes(value.value)))
    {
      if value.None? || result == null {
        return NullPointer;
      }
      result.hasException := true;
      result.exception_ := value.value;
      return Done;
    }

    method ClearException() returns (s: Status)
      modifies result
      ensures Assigned(s, 5, None)
    {
      if result == null {
        return NullPointer;
      }
      result.hasException := false;
      result.exception_ := [];
      return Done;
    }

    method SetSupervisorUuid(value: Option<ByteString>) returns (s: Status)
      modifies result
      ensures if value.None? then Refused(s) else Assigned(s, 6, Some(Bytes(value.value)))
    {
      if value.None? || result == null {
        return NullPointer;
      }
      result.hasSupervisorUuid := true;
      result.supervisorUuid_ := value.value;
      return Done;
    }

    method ClearSupervisorUuid() returns (s: Status)
      modifies result
      ensures Assigned(s, 6, None)
    {
      if result == null {
        return NullPointer;
      }
      result.hasSupervisorUuid := false;
      result.supervisorUuid_ := [];
      return Done;
    }

    method SetIsActor(value: bool) returns (s: Status)
      modifies result
      ensures Assigned(s, 7, Some(BoolWire(value)))
    {
      if result == null {
        return NullPointer;
      }
      result.hasIsActor := true;
      result.isActor_ := value;
      return Done;
    }

    method ClearIsActor() returns (s: Status)
      modifies result
      ensures Assigned(s, 7, None)
    {
      if result == null {
        return NullPointer;
      }
      result.hasIsActor := false;
      result.isActor_ := false;
      return Done;
    }

    method SetIsSuccessful(value: bool) returns (s: Status)
      modifies result
      ensures Assigned(s, 8, Some(BoolWire(value)))
    {
      if result == null {
        return NullPointer;
      }
      result.hasIsSuccessful := true;
      result.isSuccessful_ := value;
      return Done;
    }

    method ClearIsSuccessful() returns (s: Status)
      modifies result
      ensures Assigned(s, 8, None)
    {
      if result == null {
        return NullPointer;
      }
      result.hasIsSuccessful := false;
      result.isSuccessful_ := false;
      return Done;
    }

    method SetUnknownFields(fields: seq<Record>) returns (s: Status)
      modifies result
      ensures s == if result == null then NullPointer else Done
      ensures result != null ==>
                && result.Value() == Message(old(result.Known()), fields)
                && result.memoizedSerializedSize == old(result.memoizedSerializedSize)
    {
      if result == null {
        return NullPointer;
      }
      ghost var known := result.Known();
      result.unknownFields := fields;
      assert result.Known() == known;
      return Done;
    }

    method MergeUnknownFields(fields: seq<Record>) returns (s: Status)
      modifies result
      ensures s == if result == null then NullPointer else Done
      ensures result != null ==>
                && result.Value() == Message(old(result.Known()), old(result.unknownFields) + fields)
                && result.memoizedSerializedSize == old(result.memoizedSerializedSize)
    {
      if result == null {
        return NullPointer;
      }
      s := SetUnknownFields(result.unknownFields + fields);
    }

    /** A setter or clearer changed one field of the message under construction, or threw. */
    twostate predicate Assigned(s: Status, number: nat, value: Option<Wire>)
      requires number <= 8
      reads this, result
    {
      if old(result) == null then s == NullPointer && result == null
      else
        && s == Done && result == old(result)
        && result.Value() == old(result.Value()).(known := old(result.Known())[number := value])
        && result.memoizedSerializedSize == old(result.memoizedSerializedSize)
    }

    /** A null argument changed nothing. */
    twostate predicate Refused(s: Status)
      reads this, result
    {
      && s == NullPointer && result == old(result)
      && (result != null ==>
            result.Value() == old(result.Value())
              && result.memoizedSerializedSize == old(result.memoizedSerializedSize))
    }

    /** The setter of a field; None stands for null. */
    method SetField(number: nat, value: Option<Wire>) returns (s: Status)
      requires FitsField(REPLY, number, value)
      modifies result
      ensures if value.None? then Refused(s) else Assigned(s, number, value)
    {
      if number <= 3 {
        s := SetField1To3(number, value);
      } else if number <= 6 {
        s := SetField4To6(number, value);
      } else {
        s := SetField7To8(number, value);
      }
    }

    method SetField1To3(number: nat, value: Option<Wire>) returns (s: Status)
      requires 1 <= number <= 3 && FitsField(REPLY, number, value)
      modifies result
      ensures if value.None? then Refused(s) else Assigned(s, number, value)
    {
      if number == 1 {
        s := SetId(value.value.value);
      } else if number == 2 {
        s := SetProtocol(value.value.value);
      } else {
        s := SetMessage(if value.None? then None else Some(value.value.bytes));
      }
    }

    method SetField4To6(number: nat, value: Option<Wire>) returns (s: Status)
      requires 4 <= number <= 6 && FitsField(REPLY, number, value)
      modifies result
      ensures if value.None? then Refused(s) else Assigned(s, number, value)
    {
      if number == 4 {
        s := SetMessageManifest(if value.None? then None else Some(value.value.bytes));
      } else if number == 5 {
        s := SetException(if value.None? then None else Some(value.value.bytes));
      } else {
        s := SetSupervisorUuid(if value.None? then None else Some(value.value.bytes));
      }
    }

    method SetField7To8(number: nat, value: Option<Wire>) returns (s: Status)
      requires 7 <= number <= 8 && FitsField(REPLY, number, value)
      modifies result
      ensures if value.None? then Refused(s) else Assigned(s, number, value)
    {
      if number == 7 {
        s := SetIsActor(value.value.value != 0);
      } else {
        s := SetIsSuccessful(value.value.value != 0);
      }
    }

    method ClearField(number: nat) returns (s: Status)
      requires 0 < number <= 8
      modifies result
      ensures Assigned(s, number, None)
    {
      if number == 1 {
        s := ClearId();
      } else if number == 2 {
        s := ClearProtocol();
      } else if number == 3 {
        s := ClearMessage();
      } else if number == 4 {
        s := ClearMessageManifest();
      } else if number == 5 {
        s := ClearException();
      } else if number == 6 {
        s := ClearSupervisorUuid();
      } else if number == 7 {
        s := ClearIsActor();
      } else {
        s := ClearIsSuccessful();
      }
    }

    /** defaultInstance is the message that `getDefaultInstance` returns. */
    method MergeFrom(other: RemoteReply, defaultInstance: RemoteReply) returns (s: Status)
      requires other != result && defaultInstance.Value() == Default(REPLY)
      modifies result
      ensures s == if result == null && other != defaultInstance then NullPointer else Done
      ensures result != null ==>
                && result.Value() == Merge(old(result.Value()), other.Value())
                && result.memoizedSerializedSize == old(result.memoizedSerializedSize)
    {
      if other == defaultInstance {
        if result != null {
          MergeIsAMonoid(REPLY, result.Value(), result.Value(), result.Value());
        }
        return Done;
      }
      if result == null {
        return NullPointer;
      }
      ghost var mine, theirs := result.Known(), other.Known();
      assert mine == MergedBelow(mine, theirs, 1);
      MergeFields1To3(other, mine);
      MergeFields4To6(other, mine);
      MergeFields7To8(other, mine);
      MergedAll(old(result.Value()), other.Value());
      s := MergeUnknownFields(other.unknownFields);
    }

    method MergeFields1To3(other: RemoteReply, ghost mine: seq<Option<Wire>>)
      requires result != null && other != result && |mine| == 9
      requires result.Known() == MergedBelow(mine, other.Known(), 1)
      modifies result
      ensures result.Known() == MergedBelow(mine, other.Known(), 4)
      ensures result.unknownFields == old(result.unknownFields)
      ensures result.memoizedSerializedSize == old(result.memoizedSerializedSize)
    {
      ghost var theirs := other.Known();
      var s;
      if other.hasId {
        s := SetId(other.id_);
      }
      assert result.Known() == MergedBelow(mine, theirs, 2);
      if other.hasProtocol {
        s := SetProtocol(other.protocol_);
      }
      assert result.Known() == MergedBelow(mine, theirs, 3);
      if other.hasMessage {
        s := SetMessage(Some(other.message_));
      }
      assert result.Known() == MergedBelow(mine, theirs, 4);
    }

    method MergeFields4To6(other: RemoteReply, ghost mine: seq<Option<Wire>>)
      requires result != null && other != result && |mine| == 9
      requires result.Known() == MergedBelow(mine, other.Known(), 4)
      modifies result
      ensures result.Known() == MergedBelow(mine, other.Known(), 7)
      ensures result.unknownFields == old(result.unknownFields)
      ensures result.memoizedSerializedSize == old(result.memoizedSerializedSize)
    {
      ghost var theirs := other.Known();
      var s;
      if other.hasMessageManifest {
        s := SetMessageManifest(Some(other.messageManifest_));
      }
      assert result.Known() == MergedBelow(mine, theirs, 5);
      if other.hasException {
        s := SetException(Some(other.exception_));
      }
      assert result.Known() == MergedBelow(mine, theirs, 6);
      if other.hasSupervisorUuid {
        s := SetSupervisorUuid(Some(other.supervisorUuid_));
      }
      assert result.Known() == MergedBelow(mine, theirs, 7);
    }

    method MergeFields7To8(other: RemoteReply, ghost mine: seq<Option<Wire>>)
      requires result != null && other != result && |mine| == 9
      requires result.Known() == MergedBelow(mine, other.Known(), 7)
      modifies result
      ensures result.Known() == MergedBelow(mine, other.Known(), 9)
      ensures result.unknownFields == old(result.unknownFields)
      ensures result.memoizedSerializedSize == old(result.memoizedSerializedSize)
    {
      ghost var theirs := other.Known();
      var s;
      if other.hasIsActor {
        s := SetIsActor(other.isActor_);
      }
      assert result.Known() == MergedBelow(mine, theirs, 8);
      if other.hasIsSuccessful {
        s := SetIsSuccessful(other.isSuccessful_);
      }
      assert result.Known() == MergedBelow(mine, theirs, 9);
    }

    /** The tag loop.  Ok(None) at the end of the input, Ok(n) at the end tag of group n.  An error
        leaves what was parsed before it in the fields, but not the unknown records. */
    method MergeFromStream(input: CodedInputStream) returns (r: Result<Option<nat>, Status>)
      modifies result, input
      ensures result == null ==> r == Err(NullPointer)
      ensures result != null ==>
                var (rs, stop) := Tokenise(old(input.rest));
                var parsed := ApplyAll(REPLY, old(result.Value()), rs);
                && result.memoizedSerializedSize == old(result.memoizedSerializedSize)
                && match stop {
                     case AtEnd => r == Ok(None) && result.Value() == parsed
                     case AtEndGroup(n, _) => r == Ok(Some(n)) && result.Value() == parsed
                     case Failed(e) => r == Err(Invalid(e))
                       && result.Value() == parsed.(unknown := old(result.unknownFields))
                   }
    {
      if result == null {
        return Err(NullPointer);
      }
      var unknown := result.unknownFields;
      ghost var goal := Remaining(REPLY, result.Value(), input.rest);
      while true
        invariant result.unknownFields == old(result.unknownFields)
        invariant result.memoizedSerializedSize == old(result.memoizedSerializedSize)
        invariant Remaining(REPLY, Message(result.Known(), unknown), input.rest) == goal
        decreases |input.rest|
      {
        ghost var before := Message(result.Known(), unknown);
        ghost var b := input.rest;
        RemainingNext(REPLY, before, b);
        var t := input.ReadTag();
        if t.Err? {
          return Err(Invalid(t.error));
        }
        var tag := t.value;
        if tag == 0 {
          var _ := SetUnknownFields(unknown);
          return Ok(None);
        }
        var stop;
        stop, unknown := ParseTag(input, tag, unknown);
        match stop {
          case None =>
          case Some(AtEndGroup(n, _)) =>
            var _ := SetUnknownFields(unknown);
            return Ok(Some(n));
          case Some(Failed(e)) => return Err(Invalid(e));
        }
      }
    }

    /** The switch, with its default case. */
    method ParseTag(input: CodedInputStream, tag: UInt32, unknown: seq<Record>)
      returns (stop: Option<Stop>, unknown': seq<Record>)
      requires result != null && tag >= 8
      modifies result, input
      ensures result.unknownFields == old(result.unknownFields)
      ensures result.memoizedSerializedSize == old(result.memoizedSerializedSize)
      ensures var before := Message(old(result.Known()), unknown);
              match ReadValue(tag, old(input.rest)) {
                case Bad(e) => stop == Some(Failed(e)) && Message(result.Known(), unknown') == before
                case EndGroup(n, rest) => stop == Some(AtEndGroup(n, rest))
                  && Message(result.Known(), unknown') == before
                case Next(record, rest) =>
                  && stop == None && input.rest == rest
                  && Message(result.Known(), unknown') == Apply(REPLY, before, record)
              }
    {
      unknown' := unknown;
      var handled, error := ParseField(input, tag);
      if error.Some? {
        return Some(Failed(error.value)), unknown';
      }
      if handled {
        return None, unknown';
      }
      var u := input.ReadUnknown(tag);
      match u {
        case Bad(e) => return Some(Failed(e)), unknown';
        case EndGroup(n, rest) => return Some(AtEndGroup(n, rest)), unknown';
        case Next(record, _) => return None, unknown' + [record];
      }
    }

    /** The cases of the switch: one per field, each for its number and wire type. */
    method ParseField(input: CodedInputStream, tag: UInt32) returns (handled: bool, error: Option<WireError>)
      requires result != null && tag >= 8
      modifies result, input
      ensures result.unknownFields == old(result.unknownFields)
      ensures result.memoizedSerializedSize == old(result.memoizedSerializedSize)
      ensures TagOutcome(REPLY, tag, 1, 8, handled, error, old(input.rest), input.rest,
                         old(result.Known()), result.Known())
    {
      handled, error := ParseFields1To3(input, tag);
      if handled {
        return;
      }
      handled, error := ParseFields4To6(input, tag);
      if handled {
        return;
      }
      handled, error := ParseFields7To8(input, tag);
    }

    method ParseFields1To3(input: CodedInputStream, tag: UInt32) returns (handled: bool, error: Option<WireError>)
      requires result != null && tag >= 8
      modifies result, input
      ensures result.unknownFields == old(result.unknownFields)
      ensures result.memoizedSerializedSize == old(result.memoizedSerializedSize)
      ensures TagOutcome(REPLY, tag, 1, 3, handled, error, old(input.rest), input.rest,
                         old(result.Known()), result.Known())
    {
      var s;
      if tag == 8 {
        var v := input.ReadUInt64(tag);
        if v.Err? {
          return true, Some(v.error);
        }
        s := SetId(v.value);
        return true, None;
      } else if tag == 16 {
        var v, wide := input.ReadUInt32(tag);
        if v.Err? {
          return true, Some(v.error);
        }
        s := SetProtocol(v.value);
        return true, None;
      } else if tag == 26 {
        var v := input.ReadBytes(tag);
        if v.Err? {
          return true, Some(v.error);
        }
        s := SetMessage(Some(v.value));
        return true, None;
      }
      return false, None;
    }

    method ParseFields4To6(input: CodedInputStream, tag: UInt32) returns (handled: bool, error: Option<WireError>)
      requires result != null && tag >= 8
      modifies result, input
      ensures result.unknownFields == old(result.unknownFields)
      ensures result.memoizedSerializedSize == old(result.memoizedSerializedSize)
      ensures TagOutcome(REPLY, tag, 4, 6, handled, error, old(input.rest), input.rest,
                         old(result.Known()), result.Known())
    {
      var s;
      if tag == 34 {
        var v := input.ReadBytes(tag);
        if v.Err? {
          return true, Some(v.error);
        }
        s := SetMessageManifest(Some(v.value));
        return true, None;
      } else if tag == 42 {
        var v := input.ReadBytes(tag);
        if v.Err? {
          return true, Some(v.error);
        }
        s := SetException(Some(v.value));
        return true, None;
      } else if tag == 50 {
        var v := input.ReadBytes(tag);
        if v.Err? {
          return true, Some(v.error);
        }
        s := SetSupervisorUuid(Some(v.value));
        return true, None;
      }
      return false, None;
    }

    method ParseFields7To8(input: CodedInputStream, tag: UInt32) returns (handled: bool, error: Option<WireError>)
      requires result != null && tag >= 8
      modifies result, input
      ensures result.unknownFields == old(result.unknownFields)
      ensures result.memoizedSerializedSize == old(result.memoizedSerializedSize)
      ensures TagOutcome(REPLY, tag, 7, 8, handled, error, old(input.rest), input.rest,
                         old(result.Known()), result.Known())
    {
      var s;
      if tag == 56 {
        var v, wide := input.ReadBool(tag);
        if v.Err? {
          return true, Some(v.error);
        }
        s := SetIsActor(v.value);
        return true, None;
      } else if tag == 64 {
        var v, wide := input.ReadBool(tag);
        if v.Err? {
          return true, Some(v.error);
        }
        s := SetIsSuccessful(v.value);
        return true, None;
      }
      return false, None;
    }

    /** `parseFrom(bytes)` */
    static method ParseFrom(bytes: seq<Byte>) returns (r: Result<RemoteReply, Status>)
      ensures match Messages.ParseFrom(REPLY, bytes) {
                case Ok(m) => r.Ok? && fresh(r.value) && r.value.Value() == m && r.value.memoizedSerializedSize == -1
                case Err(MissingRequired) => r == Err(Uninitialised)
                case Err(Malformed(e)) => r == Err(Invalid(e))
              }
    {
      var builder := new Builder();
      var input := new CodedInputStream(bytes);
      var stopped := builder.MergeFromStream(input);
      match stopped {
        case Err(e) => return Err(e);
        case Ok(Some(_)) => return Err(Invalid(InvalidEndTag));
        case Ok(None) => r := builder.BuildParsed();
      }
    }
  }
}
