/** `RemoteRequest` and its builder, field by field as they are generated. */
module RemoteRequests {
  import opened JavaInt
  import opened Wrappers
  import opened WireFormat
  import opened Messages
  import opened CodedStreams
  import opened BuilderStatus
  import opened MessageProperties

  class RemoteRequest {
    var hasId: bool
    var id_: UInt64
    var hasProtocol: bool
    var protocol_: UInt32
    var hasMessage: bool
    var message_: ByteString
    var hasMessageManifest: bool
    var messageManifest_: ByteString
    var hasMethod: bool
    var method_: ByteString
    var hasTarget: bool
    var target_: ByteString
    var hasTimeout: bool
    var timeout_: UInt64
    var hasSupervisorUuid: bool
    var supervisorUuid_: ByteString
    var hasIsActor: bool
    var isActor_: bool
    var hasIsOneWay: bool
    var isOneWay_: bool
    var hasIsEscaped: bool
    var isEscaped_: bool
    var unknownFields: seq<Record>
    var memoizedSerializedSize: Int32

    constructor ()
      ensures Value() == Default(REQUEST) && memoizedSerializedSize == -1
    {
      hasId, id_ := false, 0;
      hasProtocol, protocol_ := false, 0;
      hasMessage, message_ := false, [];
      hasMessageManifest, messageManifest_ := false, [];
      hasMethod, method_ := false, [];
      hasTarget, target_ := false, [];
      hasTimeout, timeout_ := false, 0;
      hasSupervisorUuid, supervisorUuid_ := false, [];
      hasIsActor, isActor_ := false, false;
      hasIsOneWay, isOneWay_ := false, false;
      hasIsEscaped, isEscaped_ := false, false;
      unknownFields, memoizedSerializedSize := [], -1;
      new;
      assert Known() == Default(REQUEST).known;
    }

    /** Field n as it is written, if it is present. */
    function Field(n: nat): Option<Wire>
      reads this
    {
      if n == 1 then (if hasId then Some(Varint(id_)) else None)
      else if n == 2 then (if hasProtocol then Some(Varint(protocol_)) else None)
      else if n == 3 then (if hasMessage then Some(Bytes(message_)) else None)
      else if n == 4 then (if hasMessageManifest then Some(Bytes(messageManifest_)) else None)
      else if n == 5 then (if hasMethod then Some(Bytes(method_)) else None)
      else if n == 6 then (if hasTarget then Some(Bytes(target_)) else None)
      else if n == 7 then (if hasTimeout then Some(Varint(timeout_)) else None)
      else if n == 8 then (if hasSupervisorUuid then Some(Bytes(supervisorUuid_)) else None)
      else if n == 9 then (if hasIsActor then Some(BoolWire(isActor_)) else None)
      else if n == 10 then (if hasIsOneWay then Some(BoolWire(isOneWay_)) else None)
      else if n == 11 then (if hasIsEscaped then Some(BoolWire(isEscaped_)) else None)
      else None
    }

    function Known(): (known: seq<Option<Wire>>)
      reads this
      ensures |known| == 12 && forall n | 0 <= n < 12 :: known[n] == Field(n)
    {
      seq(12, n requires 0 <= n < 12 reads this => Field(n))
    }

    function Value(): Message
      reads this
    {
      Message(Known(), unknownFields)
    }

    /** The size is memoized as the exact one, or not at all. */
    ghost predicate MemoIsExact()
      reads this
    {
      memoizedSerializedSize == -1 || memoizedSerializedSize == Wrap32(|Write(Value())|)
    }

    lemma ValueConforms()
      ensures Conforms(REQUEST, Value())
    {
      forall n | 0 <= n < 12 && Field(n).Some?
        ensures Matches(REQUEST.kinds[n], Field(n).value)
                && Canonical(REQUEST.kinds[n], Field(n).value) == Field(n).value
      {
        FieldConforms(n);
      }
    }

    lemma FieldConforms(n: nat)
      requires n < 12 && Field(n).Some?
      ensures Matches(REQUEST.kinds[n], Field(n).value) && Canonical(REQUEST.kinds[n], Field(n).value) == Field(n).value
    {
    }

    method IsInitialized() returns (b: bool)
      ensures b == Initialised(REQUEST, Value())
    {
      if !hasId {
        return false;
      }
      if !hasProtocol {
        return false;
      }
      if !hasMessage {
        return false;
      }
      if !hasTarget {
        return false;
      }
      if !hasTimeout {
        return false;
      }
      if !hasIsActor {
        return false;
      }
      if !hasIsOneWay {
        return false;
      }
      if !hasIsEscaped {
        return false;
      }
      return true;
    }

    method WriteTo(output: CodedOutputStream)
      modifies output
      ensures output.bytes == old(output.bytes) + Write(Value())
    {
      ghost var start := output.bytes;
      PrefixStart(Known(), start);
      WriteFields1To3(output, start);
      WriteFields4To6(output, start);
      WriteFields7To9(output, start);
      WriteFields10To11(output, start);
      output.WriteUnknown(unknownFields);
      PrefixEnd(Value(), start);
    }

    method WriteFields1To3(output: CodedOutputStream, ghost start: seq<Byte>)
      requires output.bytes == start + Prefix(Known(), 1)
      modifies output
      ensures output.bytes == start + Prefix(Known(), 4)
    {
      ghost var known := Known();
      PrefixStep(known, 1, start);
      if hasId {
        output.WriteUInt64(1, id_);
      }
      assert output.bytes == start + Prefix(known, 2);
      PrefixStep(known, 2, start);
      if hasProtocol {
        output.WriteUInt32(2, protocol_);
      }
      assert output.bytes == start + Prefix(known, 3);
      PrefixStep(known, 3, start);
      if hasMessage {
        output.WriteBytes(3, message_);
      }
      assert output.bytes == start + Prefix(known, 4);
    }

    method WriteFields4To6(output: CodedOutputStream, ghost start: seq<Byte>)
      requires output.bytes == start + Prefix(Known(), 4)
      modifies output
      ensures output.bytes == start + Prefix(Known(), 7)
    {
      ghost var known := Known();
      PrefixStep(known, 4, start);
      if hasMessageManifest {
        output.WriteBytes(4, messageManifest_);
      }
      assert output.bytes == start + Prefix(known, 5);
      PrefixStep(known, 5, start);
      if hasMethod {
        output.WriteBytes(5, method_);
      }
      assert output.bytes == start + Prefix(known, 6);
      PrefixStep(known, 6, start);
      if hasTarget {
        output.WriteBytes(6, target_);
      }
      assert output.bytes == start + Prefix(known, 7);
    }

    method WriteFields7To9(output: CodedOutputStream, ghost start: seq<Byte>)
      requires output.bytes == start + Prefix(Known(), 7)
      modifies output
      ensures output.bytes == start + Prefix(Known(), 10)
    {
      ghost var known := Known();
      PrefixStep(known, 7, start);
      if hasTimeout {
        output.WriteUInt64(7, timeout_);
      }
      assert output.bytes == start + Prefix(known, 8);
      PrefixStep(known, 8, start);
      if hasSupervisorUuid {
        output.WriteBytes(8, supervisorUuid_);
      }
      assert output.bytes == start + Prefix(known, 9);
      PrefixStep(known, 9, start);
      if hasIsActor {
        output.WriteBool(9, isActor_);
      }
      assert output.bytes == start + Prefix(known, 10);
    }

    method WriteFields10To11(output: CodedOutputStream, ghost start: seq<Byte>)
      requires output.bytes == start + Prefix(Known(), 10)
      modifies output
      ensures output.bytes == start + Prefix(Known(), 12)
    {
      ghost var known := Known();
      PrefixStep(known, 10, start);
      if hasIsOneWay {
        output.WriteBool(10, isOneWay_);
      }
      assert output.bytes == start + Prefix(known, 11);
      PrefixStep(known, 11, start);
      if hasIsEscaped {
        output.WriteBool(11, isEscaped_);
      }
      assert output.bytes == start + Prefix(known, 12);
    }

    method GetSerializedSize() returns (size: Int32)
      requires MemoIsExact()
      modifies `memoizedSerializedSize
      ensures MemoIsExact() && size == Wrap32(|Write(Value())|) && Value() == old(Value())
    {
      size := memoizedSerializedSize;
      if size != -1 {
        return;
      }
      size := ComputeSize();
      ghost var known := Known();
      memoizedSerializedSize := size;
      assert Known() == known;
    }

    method ComputeSize() returns (size: Int32)
      ensures size == Wrap32(|Write(Value())|)
    {
      PrefixStart(Known(), []);
      size := 0;
      size := AddSizes1To2(size);
      size := AddSizes3To4(size);
      size := AddSizes5To6(size);
      size := AddSizes7To8(size);
      size := AddSizes9To10(size);
      size := AddSizes11To11(size);
      size := Wrap32(size + |EncodeRecords(unknownFields)|);
      PrefixEnd(Value(), []);
      WrapsOnce(|Prefix(Known(), 12)|, |EncodeRecords(unknownFields)|);
    }

    method AddSizes1To2(before: Int32) returns (size: Int32)
      requires before == Wrap32(|Prefix(Known(), 1)|)
      ensures size == Wrap32(|Prefix(Known(), 3)|)
    {
      size := before;
      PrefixSizeStep(Known(), 1, size);
      if hasId {
        UInt64SizeIsExact(1, id_);
        size := Wrap32(size + ComputeUInt64Size(1, id_));
      }
      assert size == Wrap32(|Prefix(Known(), 2)|);
      PrefixSizeStep(Known(), 2, size);
      if hasProtocol {
        UInt64SizeIsExact(2, protocol_);
        size := Wrap32(size + ComputeUInt64Size(2, protocol_));
      }
      assert size == Wrap32(|Prefix(Known(), 3)|);
    }

    method AddSizes3To4(before: Int32) returns (size: Int32)
      requires before == Wrap32(|Prefix(Known(), 3)|)
      ensures size == Wrap32(|Prefix(Known(), 5)|)
    {
      size := before;
      PrefixSizeStep(Known(), 3, size);
      if hasMessage {
        BytesSizeIsExact(3, message_);
        size := Wrap32(size + ComputeBytesSize(3, message_));
      }
      assert size == Wrap32(|Prefix(Known(), 4)|);
      PrefixSizeStep(Known(), 4, size);
      if hasMessageManifest {
        BytesSizeIsExact(4, messageManifest_);
        size := Wrap32(size + ComputeBytesSize(4, messageManifest_));
      }
      assert size == Wrap32(|Prefix(Known(), 5)|);
    }

    method AddSizes5To6(before: Int32) returns (size: Int32)
      requires before == Wrap32(|Prefix(Known(), 5)|)
      ensures size == Wrap32(|Prefix(Known(), 7)|)
    {
      size := before;
      PrefixSizeStep(Known(), 5, size);
      if hasMethod {
        BytesSizeIsExact(5, method_);
        size := Wrap32(size + ComputeBytesSize(5, method_));
      }
      assert size == Wrap32(|Prefix(Known(), 6)|);
      PrefixSizeStep(Known(), 6, size);
      if hasTarget {
        BytesSizeIsExact(6, target_);
        size := Wrap32(size + ComputeBytesSize(6, target_));
      }
      assert size == Wrap32(|Prefix(Known(), 7)|);
    }

    method AddSizes7To8(before: Int32) returns (size: Int32)
      requires before == Wrap32(|Prefix(Known(), 7)|)
      ensures size == Wrap32(|Prefix(Known(), 9)|)
    {
      size := before;
      PrefixSizeStep(Known(), 7, size);
      if hasTimeout {
        UInt64SizeIsExact(7, timeout_);
        size := Wrap32(size + ComputeUInt64Size(7, timeout_));
      }
      assert size == Wrap32(|Prefix(Known(), 8)|);
      PrefixSizeStep(Known(), 8, size);
      if hasSupervisorUuid {
        BytesSizeIsExact(8, supervisorUuid_);
        size := Wrap32(size + ComputeBytesSize(8, supervisorUuid_));
      }
      assert size == Wrap32(|Prefix(Known(), 9)|);
    }

    method AddSizes9To10(before: Int32) returns (size: Int32)
      requires before == Wrap32(|Prefix(Known(), 9)|)
      ensures size == Wrap32(|Prefix(Known(), 11)|)
    {
      size := before;
      PrefixSizeStep(Known(), 9, size);
      if hasIsActor {
        BoolSizeIsExact(9, isActor_);
        size := Wrap32(size + ComputeBoolSize(9, isActor_));
      }
      assert size == Wrap32(|Prefix(Known(), 10)|);
      PrefixSizeStep(Known(), 10, size);
      if hasIsOneWay {
        BoolSizeIsExact(10, isOneWay_);
        size := Wrap32(size + ComputeBoolSize(10, isOneWay_));
      }
      assert size == Wrap32(|Prefix(Known(), 11)|);
    }

    method AddSizes11To11(before: Int32) returns (size: Int32)
      requires before == Wrap32(|Prefix(Known(), 11)|)
      ensures size == Wrap32(|Prefix(Known(), 12)|)
    {
      size := before;
      PrefixSizeStep(Known(), 11, size);
      if hasIsEscaped {
        BoolSizeIsExact(11, isEscaped_);
        size := Wrap32(size + ComputeBoolSize(11, isEscaped_));
      }
      assert size == Wrap32(|Prefix(Known(), 12)|);
    }

  }

  /** Builds one message; after `buildPartial` there is no message left to change. */
  class Builder {
    var result: RemoteRequest?

    constructor ()
      ensures fresh(result) && result != null && result.Value() == Default(REQUEST) && Unsized()
    {
      result := new RemoteRequest();
    }

    /** The size of a message under construction has not been asked for. */
    ghost predicate Unsized()
      reads this, result
    {
      result != null ==> result.memoizedSerializedSize == -1
    }

    method Clear() returns (s: Status)
      modifies this
      ensures s == if old(result) == null then IllegalState else Done
      ensures old(result) == null ==> result == null
      ensures old(result) != null ==> result != null && fresh(result) && result.Value() == Default(REQUEST) && Unsized()
    {
      if result == null {
        return IllegalState;
      }
      result := new RemoteRequest();
      return Done;
    }

    method BuildPartial() returns (r: Result<RemoteRequest, Status>)
      modifies `result
      ensures result == null
      ensures old(result) == null ==> r == Err(IllegalState)
      ensures old(result) != null ==> r == Ok(old(result))
    {
      if result == null {
        return Err(IllegalState);
      }
      var returnMe := result;
      result := null;
      return Ok(returnMe);
    }

    method Build() returns (r: Result<RemoteRequest, Status>)
      modifies `result
      ensures old(result) == null ==> r == Err(IllegalState) && result == null
      ensures old(result) != null ==>
                if Initialised(REQUEST, old(result.Value())) then r == Ok(old(result)) && result == null
                else r == Err(Uninitialised) && result == old(result)
    {
      if result != null {
        var initialised := result.IsInitialized();
        if !initialised {
          return Err(Uninitialised);
        }
      }
      r := BuildPartial();
    }

    /** Unlike `build`, it asks the missing message itself. */
    method BuildParsed() returns (r: Result<RemoteRequest, Status>)
      modifies `result
      ensures old(result) == null ==> r == Err(NullPointer) && result == null
      ensures old(result) != null ==>
                if Initialised(REQUEST, old(result.Value())) then r == Ok(old(result)) && result == null
                else r == Err(Uninitialised) && result == old(result)
    {
      if result == null {
        return Err(NullPointer);
      }
      r := Build();
    }

    method SetId(value: UInt64) returns (s: Status)
      modifies result
      ensures Assigned(s, 1, Some(Varint(value)))
    {
      if result == null {
        return NullPointer;
      }
      result.hasId := true;
      result.id_ := value;
      return Done;
    }

    method ClearId() returns (s: Status)
      modifies result
      ensures Assigned(s, 1, None)
    {
      if result == null {
        return NullPointer;
      }
      result.hasId := false;
      result.id_ := 0;
      return Done;
    }

    method SetProtocol(value: UInt32) returns (s: Status)
      modifies result
      ensures Assigned(s, 2, Some(Varint(value)))
    {
      if result == null {
        return NullPointer;
      }
      result.hasProtocol := true;
      result.protocol_ := value;
      return Done;
    }

    method ClearProtocol() returns (s: Status)
      modifies result
      ensures Assigned(s, 2, None)
    {
      if result == null {
        return NullPointer;
      }
      result.hasProtocol := false;
      result.protocol_ := 0;
      return Done;
    }

    method SetMessage(value: Option<ByteString>) returns (s: Status)
      modifies result
      ensures if value.None? then Refused(s) else Assigned(s, 3, Some(Bytes(value.value)))
    {
      if value.None? || result == null {
        return NullPointer;
      }
      result.hasMessage := true;
      result.message_ := value.value;
      return Done;
    }

    method ClearMessage() returns (s: Status)
      modifies result
      ensures Assigned(s, 3, None)
    {
      if result == null {
        return NullPointer;
      }
      result.hasMessage := false;
      result.message_ := [];
      return Done;
    }

    method SetMessageManifest(value: Option<ByteString>) returns (s: Status)
      modifies result
      ensures if value.None? then Refused(s) else Assigned(s, 4, Some(Bytes(value.value)))
    {
      if value.None? || result == null {
        return NullPointer;
      }
      result.hasMessageManifest := true;
      result.messageManifest_ := value.value;
      return Done;
    }

    method ClearMessageManifest() returns (s: Status)
      modifies result
      ensures Assigned(s, 4, None)
    {
      if result == null {
        return NullPointer;
      }
      result.hasMessageManifest := false;
      result.messageManifest_ := [];
      return Done;
    }

    method SetMethod(value: Option<ByteString>) returns (s: Status)
      modifies result
      ensures if value.None? then Refused(s) else Assigned(s, 5, Some(Bytes(value.value)))
    {
      if value.None? || result == null {
        return NullPointer;
      }
      result.hasMethod := true;
      result.method_ := value.value;
      return Done;
    }

    method ClearMethod() returns (s: Status)
      modifies result
      ensures Assigned(s, 5, None)
    {
      if result == null {
        return NullPointer;
      }
      result.hasMethod := false;
      result.method_ := [];
      return Done;
    }

    method SetTarget(value: Option<ByteString>) returns (s: Status)
      modifies result
      ensures if value.None? then Refused(s) else Assigned(s, 6, Some(Bytes(value.value)))
    {
      if value.None? || result == null {
        return NullPointer;
      }
      result.hasTarget := true;
      result.target_ := value.value;
      return Done;
    }

    method ClearTarget() returns (s: Status)
      modifies result
      ensures Assigned(s, 6, None)
    {
      if result == null {
        return NullPointer;
      }
      result.hasTarget := false;
      result.target_ := [];
      return Done;
    }

    method SetTimeout(value: UInt64) returns (s: Status)
      modifies result
      ensures Assigned(s, 7, Some(Varint(value)))
    {
      if result == null {
        return NullPointer;
      }
      result.hasTimeout := true;
      result.timeout_ := value;
      return Done;
    }

    method ClearTimeout() returns (s: Status)
      modifies result
      ensures Assigned(s, 7, None)
    {
      if result == null {
        return NullPointer;
      }
      result.hasTimeout := false;
      result.timeout_ := 0;
      return Done;
    }

    method SetSupervisorUuid(value: Option<ByteString>) returns (s: Status)
      modifies result
      ensures if value.None? then Refused(s) else Assigned(s, 8, Some(Bytes(value.value)))
    {
      if value.None? || result == null {
        return NullPointer;
      }
      result.hasSupervisorUuid := true;
      result.supervisorUuid_ := value.value;
      return Done;
    }

    method ClearSupervisorUuid() returns (s: Status)
      modifies result
      ensures Assigned(s, 8, None)
    {
      if result == null {
        return NullPointer;
      }
      result.hasSupervisorUuid := false;
      result.supervisorUuid_ := [];
      return Done;
    }

    method SetIsActor(value: bool) returns (s: Status)
      modifies result
      ensures Assigned(s, 9, Some(BoolWire(value)))
    {
      if result == null {
        return NullPointer;
      }
      result.hasIsActor := true;
      result.isActor_ := value;
      return Done;
    }

    method ClearIsActor() returns (s: Status)
      modifies result
      ensures Assigned(s, 9, None)
    {
      if result == null {
        return NullPointer;
      }
      result.hasIsActor := false;
      result.isActor_ := false;
      return Done;
    }

    method SetIsOneWay(value: bool) returns (s: Status)
      modifies result
      ensures Assigned(s, 10, Some(BoolWire(value)))
    {
      if result == null {
        return NullPointer;
      }
      result.hasIsOneWay := true;
      result.isOneWay_ := value;
      return Done;
    }

    method ClearIsOneWay() returns (s: Status)
      modifies result
      ensures Assigned(s, 10, None)
    {
      if result == null {
        return NullPointer;
      }
      result.hasIsOneWay := false;
      result.isOneWay_ := false;
      return Done;
    }

    method SetIsEscaped(value: bool) returns (s: Status)
      modifies result
      ensures Assigned(s, 11, Some(BoolWire(value)))
    {
      if result == null {
        return NullPointer;
      }
      result.hasIsEscaped := true;
      result.isEscaped_ := value;
      return Done;
    }

    method ClearIsEscaped() returns (s: Status)
      modifies result
      ensures Assigned(s, 11, None)
    {
      if result == null {
        return NullPointer;
      }
      result.hasIsEscaped := false;
      result.isEscaped_ := false;
      return Done;
    }

    method SetUnknownFields(fields: seq<Record>) returns (s: Status)
      modifies result
      ensures s == if result == null then NullPointer else Done
      ensures result != null ==>
                && result.Value() == Message(old(result.Known()), fields)
                && result.memoizedSerializedSize == old(result.memoizedSerializedSize)
    {
      if result == null {
        return NullPointer;
      }
      ghost var known := result.Known();
      result.unknownFields := fields;
      assert result.Known() == known;
      return Done;
    }

    method MergeUnknownFields(fields: seq<Record>) returns (s: Status)
      modifies result
      ensures s == if result == null then NullPointer else Done
      ensures result != null ==>
                && result.Value() == Message(old(result.Known()), old(result.unknownFields) + fields)
                && result.memoizedSerializedSize == old(result.memoizedSerializedSize)
    {
      if result == null {
        return NullPointer;
      }
      s := SetUnknownFields(result.unknownFields + fields);
    }

    /** A setter or clearer changed one field of the message under construction, or threw. */
    twostate predicate Assigned(s: Status, number: nat, value: Option<Wire>)
      requires number <= 11
      reads this, result
    {
      if old(result) == null then s == NullPointer && result == null
      else
        && s == Done && result == old(result)
        && result.Value() == old(result.Value()).(known := old(result.Known())[number := value])
        && result.memoizedSerializedSize == old(result.memoizedSerializedSize)
    }

    /** A null argument changed nothing. */
    twostate predicate Refused(s: Status)
      reads this, result
    {
      && s == NullPointer && result == old(result)
      && (result != null ==>
            result.Value() == old(result.Value())
              && result.memoizedSerializedSize == old(result.memoizedSerializedSize))
    }

    /** The setter of a field; None stands for null. */
    method SetField(number: nat, value: Option<Wire>) returns (s: Status)
      requires FitsField(REQUEST, number, value)
      modifies result
      ensures if value.None? then Refused(s) else Assigned(s, number, value)
    {
      if number <= 3 {
        s := SetField1To3(number, value);
      } else if number <= 6 {
        s := SetField4To6(number, value);
      } else if number <= 9 {
        s := SetField7To9(number, value);
      } else {
        s := SetField10To11(number, value);
      }
    }

    method SetField1To3(number: nat, value: Option<Wire>) returns (s: Status)
      requires 1 <= number <= 3 && FitsField(REQUEST, number, value)
      modifies result
      ensures if value.None? then Refused(s) else Assigned(s, number, value)
    {
      if number == 1 {
        s := SetId(value.value.value);
      } else if number == 2 {
        s := SetProtocol(value.value.value);
      } else {
        s := SetMessage(if value.None? then None else Some(value.value.bytes));
      }
    }

    method SetField4To6(number: nat, value: Option<Wire>) returns (s: Status)
      requires 4 <= number <= 6 && FitsField(REQUEST, number, value)
      modifies result
      ensures if value.None? then Refused(s) else Assigned(s, number, value)
    {
      if number == 4 {
        s := SetMessageManifest(if value.None? then None else Some(value.value.bytes));
      } else if number == 5 {
        s := SetMethod(if value.None? then None else Some(value.value.bytes));
      } else {
        s := SetTarget(if value.None? then None else Some(value.value.bytes));
      }
    }

    method SetField7To9(number: nat, value: Option<Wire>) returns (s: Status)
      requires 7 <= number <= 9 && FitsField(REQUEST, number, value)
      modifies result
      ensures if value.None? then Refused(s) else Assigned(s, number, value)
    {
      if number == 7 {
        s := SetTimeout(value.value.value);
      } else if number == 8 {
        s := SetSupervisorUuid(if value.None? then None else Some(value.value.bytes));
      } else {
        s := SetIsActor(value.value.value != 0);
      }
    }

    method SetField10To11(number: nat, value: Option<Wire>) returns (s: Status)
      requires 10 <= number <= 11 && FitsField(REQUEST, number, value)
      modifies result
      ensures if value.None? then Refused(s) else Assigned(s, number, value)
    {
      if number == 10 {
        s := SetIsOneWay(value.value.value != 0);
      } else {
        s := SetIsEscaped(value.value.value != 0);
      }
    }

    method ClearField(number: nat) returns (s: Status)
      requires 0 < number <= 11
      modifies result
      ensures Assigned(s, number, None)
    {
      if number == 1 {
        s := ClearId();
      } else if number == 2 {
        s := ClearProtocol();
      } else if number == 3 {
        s := ClearMessage();
      } else if number == 4 {
        s := ClearMessageManifest();
      } else if number == 5 {
        s := ClearMethod();
      } else if number == 6 {
        s := ClearTarget();
      } else if number == 7 {
        s := ClearTimeout();
      } else if number == 8 {
        s := ClearSupervisorUuid();
      } else if number == 9 {
        s := ClearIsActor();
      } else if number == 10 {
        s := ClearIsOneWay();
      } else {
        s := ClearIsEscaped();
      }
    }

    /** defaultInstance is the message that `getDefaultInstance` returns. */
    method MergeFrom(other: RemoteRequest, defaultInstance: RemoteRequest) returns (s: Status)
      requires other != result && defaultInstance.Value() == Default(REQUEST)
      modifies result
      ensures s == if result == null && other != defaultInstance then NullPointer else Done
      ensures result != null ==>
                && result.Value() == Merge(old(result.Value()), other.Value())
                && result.memoizedSerializedSize == old(result.memoizedSerializedSize)
    {
      if other == defaultInstance {
        if result != null {
          MergeIsAMonoid(REQUEST, result.Value(), result.Value(), result.Value());
        }
        return Done;
      }
      if result == null {
        return NullPointer;
      }
      ghost var mine, theirs := result.Known(), other.Known();
      assert mine == MergedBelow(mine, theirs, 1);
      MergeFields1To3(other, mine);
      MergeFields4To6(other, mine);
      MergeFields7To9(other, mine);
      MergeFields10To11(other, mine);
      MergedAll(old(result.Value()), other.Value());
      s := MergeUnknownFields(other.unknownFields);
    }

    method MergeFields1To3(other: RemoteRequest, ghost mine: seq<Option<Wire>>)
      requires result != null && other != result && |mine| == 12
      requires result.Known() == MergedBelow(mine, other.Known(), 1)
      modifies result
      ensures result.Known() == MergedBelow(mine, other.Known(), 4)
      ensures result.unknownFields == old(result.unknownFields)
      ensures result.memoizedSerializedSize == old(result.memoizedSerializedSize)
    {
      ghost var theirs := other.Known();
      var s;
      if other.hasId {
        s := SetId(other.id_);
      }
      assert result.Known() == MergedBelow(mine, theirs, 2);
      if other.hasProtocol {
        s := SetProtocol(other.protocol_);
      }
      assert result.Known() == MergedBelow(mine, theirs, 3);
      if other.hasMessage {
        s := SetMessage(Some(other.message_));
      }
      assert result.Known() == MergedBelow(mine, theirs, 4);
    }

    method MergeFields4To6(other: RemoteRequest, ghost mine: seq<Option<Wire>>)
      requires result != null && other != result && |mine| == 12
      requires result.Known() == MergedBelow(mine, other.Known(), 4)
      modifies result
      ensures result.Known() == MergedBelow(mine, other.Known(), 7)
      ensures result.unknownFields == old(result.unknownFields)
      ensures result.memoizedSerializedSize == old(result.memoizedSerializedSize)
    {
      ghost var theirs := other.Known();
      var s;
      if other.hasMessageManifest {
        s := SetMessageManifest(Some(other.messageManifest_));
      }
      assert result.Known() == MergedBelow(mine, theirs, 5);
      if other.hasMethod {
        s := SetMethod(Some(other.method_));
      }
      assert result.Known() == MergedBelow(mine, theirs, 6);
      if other.hasTarget {
        s := SetTarget(Some(other.target_));
      }
      assert result.Known() == MergedBelow(mine, theirs, 7);
    }

    method MergeFields7To9(other: RemoteRequest, ghost mine: seq<Option<Wire>>)
      requires result != null && other != result && |mine| == 12
      requires result.Known() == MergedBelow(mine, other.Known(), 7)
      modifies result
      ensures result.Known() == MergedBelow(mine, other.Known(), 10)
      ensures result.unknownFields == old(result.unknownFields)
      ensures result.memoizedSerializedSize == old(result.memoizedSerializedSize)
    {
      ghost var theirs := other.Known();
      var s;
      if other.hasTimeout {
        s := SetTimeout(other.timeout_);
      }
      assert result.Known() == MergedBelow(mine, theirs, 8);
      if other.hasSupervisorUuid {
        s := SetSupervisorUuid(Some(other.supervisorUuid_));
      }
      assert result.Known() == MergedBelow(mine, theirs, 9);
      if other.hasIsActor {
        s := SetIsActor(other.isActor_);
      }
      assert result.Known() == MergedBelow(mine, theirs, 10);
    }

    method MergeFields10To11(other: RemoteRequest, ghost mine: seq<Option<Wire>>)
      requires result != null && other != result && |mine| == 12
      requires result.Known() == MergedBelow(mine, other.Known(), 10)
      modifies result
      ensures result.Known() == MergedBelow(mine, other.Known(), 12)
      ensures result.unknownFields == old(result.unknownFields)
      ensures result.memoizedSerializedSize == old(result.memoizedSerializedSize)
    {
      ghost var theirs := other.Known();
      var s;
      if other.hasIsOneWay {
        s := SetIsOneWay(other.isOneWay_);
      }
      assert result.Known() == MergedBelow(mine, theirs, 11);
      if other.hasIsEscaped {
        s := SetIsEscaped(other.isEscaped_);
      }
      assert result.Known() == MergedBelow(mine, theirs, 12);
    }

    /** The tag loop.  Ok(None) at the end of the input, Ok(n) at the end tag of group n.  An error
        leaves what was parsed before it in the fields, but not the unknown records. */
    method MergeFromStream(input: CodedInputStream) returns (r: Result<Option<nat>, Status>)
      modifies result, input
      ensures result == null ==> r == Err(NullPointer)
      ensures result != null ==>
                var (rs, stop) := Tokenise(old(input.rest));
                var parsed := ApplyAll(REQUEST, old(result.Value()), rs);
                && result.memoizedSerializedSize == old(result.memoizedSerializedSize)
                && match stop {
                     case AtEnd => r == Ok(None) && result.Value() == parsed
                     case AtEndGroup(n, _) => r == Ok(Some(n)) && result.Value() == parsed
                     case Failed(e) => r == Err(Invalid(e))
                       && result.Value() == parsed.(unknown := old(result.unknownFields))
                   }
    {
      if result == null {
        return Err(NullPointer);
      }
      var unknown := result.unknownFields;
      ghost var goal := Remaining(REQUEST, result.Value(), input.rest);
      while true
        invariant result.unknownFields == old(result.unknownFields)
        invariant result.memoizedSerializedSize == old(result.memoizedSerializedSize)
        invariant Remaining(REQUEST, Message(result.Known(), unknown), input.rest) == goal
        decreases |input.rest|
      {
        ghost var before := Message(result.Known(), unknown);
        ghost var b := input.rest;
        RemainingNext(REQUEST, before, b);
        var t := input.ReadTag();
        if t.Err? {
          return Err(Invalid(t.error));
        }
        var tag := t.value;
        if tag == 0 {
          var _ := SetUnknownFields(unknown);
          return Ok(None);
        }
        var stop;
        stop, unknown := ParseTag(input, tag, unknown);
        match stop {
          case None =>
          case Some(AtEndGroup(n, _)) =>
            var _ := SetUnknownFields(unknown);
            return Ok(Some(n));
          case Some(Failed(e)) => return Err(Invalid(e));
        }
      }
    }

    /** The switch, with its default case. */
    method ParseTag(input: CodedInputStream, tag: UInt32, unknown: seq<Record>)
      returns (stop: Option<Stop>, unknown': seq<Record>)
      requires result != null && tag >= 8
      modifies result, input
      ensures result.unknownFields == old(result.unknownFields)
      ensures result.memoizedSerializedSize == old(result.memoizedSerializedSize)
      ensures var before := Message(old(result.Known()), unknown);
              match ReadValue(tag, old(input.rest)) {
                case Bad(e) => stop == Some(Failed(e)) && Message(result.Known(), unknown') == before
                case EndGroup(n, rest) => stop == Some(AtEndGroup(n, rest))
                  && Message(result.Known(), unknown') == before
                case Next(record, rest) =>
                  && stop == None && input.rest == rest
                  && Message(result.Known(), unknown') == Apply(REQUEST, before, record)
              }
    {
      unknown' := unknown;
      var handled, error := ParseField(input, tag);
      if error.Some? {
        return Some(Failed(error.value)), unknown';
      }
      if handled {
        return None, unknown';
      }
      var u := input.ReadUnknown(tag);
      match u {
        case Bad(e) => return Some(Failed(e)), unknown';
        case EndGroup(n, rest) => return Some(AtEndGroup(n, rest)), unknown';
        case Next(record, _) => return None, unknown' + [record];
      }
    }

    /** The cases of the switch: one per field, each for its number and wire type. */
    method ParseField(input: CodedInputStream, tag: UInt32) returns (handled: bool, error: Option<WireError>)
      requires result != null && tag >= 8
      modifies result, input
      ensures result.unknownFields == old(result.unknownFields)
      ensures result.memoizedSerializedSize == old(result.memoizedSerializedSize)
      ensures TagOutcome(REQUEST, tag, 1, 11, handled, error, old(input.rest), input.rest,
                         old(result.Known()), result.Known())
    {
      handled, error := ParseFields1To3(input, tag);
      if handled {
        return;
      }
      handled, error := ParseFields4To6(input, tag);
      if handled {
        return;
      }
      handled, error := ParseFields7To9(input, tag);
      if handled {
        return;
      }
      handled, error := ParseFields10To11(input, tag);
    }

    method ParseFields1To3(input: CodedInputStream, tag: UInt32) returns (handled: bool, error: Option<WireError>)
      requires result != null && tag >= 8
      modifies result, input
      ensures result.unknownFields == old(result.unknownFields)
      ensures result.memoizedSerializedSize == old(result.memoizedSerializedSize)
      ensures TagOutcome(REQUEST, tag, 1, 3, handled, error, old(input.rest), input.rest,
                         old(result.Known()), result.Known())
    {
      var s;
      if tag == 8 {
        var v := input.ReadUInt64(tag);
        if v.Err? {
          return true, Some(v.error);
        }
        s := SetId(v.value);
        return true, None;
      } else if tag == 16 {
        var v, wide := input.ReadUInt32(tag);
        if v.Err? {
          return true, Some(v.error);
        }
        s := SetProtocol(v.value);
        return true, None;
      } else if tag == 26 {
        var v := input.ReadBytes(tag);
        if v.Err? {
          return true, Some(v.error);
        }
        s := SetMessage(Some(v.value));
        return true, None;
      }
      return false, None;
    }

    method ParseFields4To6(input: CodedInputStream, tag: UInt32) returns (handled: bool, error: Option<WireError>)
      requires result != null && tag >= 8
      modifies result, input
      ensures result.unknownFields == old(result.unknownFields)
      ensures result.memoizedSerializedSize == old(result.memoizedSerializedSize)
      ensures TagOutcome(REQUEST, tag, 4, 6, handled, error, old(input.rest), input.rest,
                         old(result.Known()), result.Known())
    {
      var s;
      if tag == 34 {
        var v := input.ReadBytes(tag);
        if v.Err? {
          return true, Some(v.error);
        }
        s := SetMessageManifest(Some(v.value));
        return true, None;
      } else if tag == 42 {
        var v := input.ReadBytes(tag);
        if v.Err? {
          return true, Some(v.error);
        }
        s := SetMethod(Some(v.value));
        return true, None;
      } else if tag == 50 {
        var v := input.ReadBytes(tag);
        if v.Err? {
          return true, Some(v.error);
        }
        s := SetTarget(Some(v.value));
        return true, None;
      }
      return false, None;
    }

    method ParseFields7To9(input: CodedInputStream, tag: UInt32) returns (handled: bool, error: Option<WireError>)
      requires result != null && tag >= 8
      modifies result, input
      ensures result.unknownFields == old(result.unknownFields)
      ensures result.memoizedSerializedSize == old(result.memoizedSerializedSize)
      ensures TagOutcome(REQUEST, tag, 7, 9, handled, error, old(input.rest), input.rest,
                         old(result.Known()), result.Known())
    {
      var s;
      if tag == 56 {
        var v := input.ReadUInt64(tag);
        if v.Err? {
          return true, Some(v.error);
        }
        s := SetTimeout(v.value);
        return true, None;
      } else if tag == 66 {
        var v := input.ReadBytes(tag);
        if v.Err? {
          return true, Some(v.error);
        }
        s := SetSupervisorUuid(Some(v.value));
        return true, None;
      } else if tag == 72 {
        var v, wide := input.ReadBool(tag);
        if v.Err? {
          return true, Some(v.error);
        }
        s := SetIsActor(v.value);
        return true, None;
      }
      return false, None;
    }

    method ParseFields10To11(input: CodedInputStream, tag: UInt32) returns (handled: bool, error: Option<WireError>)
      requires result != null && tag >= 8
      modifies result, input
      ensures result.unknownFields == old(result.unknownFields)
      ensures result.memoizedSerializedSize == old(result.memoizedSerializedSize)
      ensures TagOutcome(REQUEST, tag, 10, 11, handled, error, old(input.rest), input.rest,
                         old(result.Known()), result.Known())
    {
      var s;
      if tag == 80 {
        var v, wide := input.ReadBool(tag);
        if v.Err? {
          return true, Some(v.error);
        }
        s := SetIsOneWay(v.value);
        return true, None;
      } else if tag == 88 {
        var v, wide := input.ReadBool(tag);
        if v.Err? {
          return true, Some(v.error);
        }
        s := SetIsEscaped(v.value);
        return true, None;
      }
      return false, None;
    }

    /** `parseFrom(bytes)` */
    static method ParseFrom(bytes: seq<Byte>) returns (r: Result<RemoteRequest, Status>)
      ensures match Messages.ParseFrom(REQUEST, bytes) {
                case Ok(m) => r.Ok? && fresh(r.value) && r.value.Value() == m && r.value.memoizedSerializedSize == -1
                case Err(MissingRequired) => r == Err(Uninitialised)
                case Err(Malformed(e)) => r == Err(Invalid(e))
              }
    {
      var builder := new Builder();
      var input := new CodedInputStream(bytes);
      var stopped := builder.MergeFromStream(input);
      match stopped {
        case Err(e) => return Err(e);
        case Ok(Some(_)) => return Err(Invalid(InvalidEndTag));
        case Ok(None) => r := builder.BuildParsed();
      }
    }
  }
}
