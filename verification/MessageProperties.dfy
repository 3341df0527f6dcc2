/** The laws of the codec: merging, concatenation, field order, round trip, disjoint languages. */
module MessageProperties {
  import opened Wrappers
  import opened WireFormat
  import opened WireProperties
  import opened Messages

  // ---------- merging and concatenation ----------

  lemma MergeIsAMonoid(schema: Schema, a: Message, b: Message, c: Message)
    requires Fits(schema, a) && Fits(schema, b) && Fits(schema, c)
    ensures Merge(Merge(a, b), c) == Merge(a, Merge(b, c))
    ensures Merge(a, Default(schema)) == a == Merge(Default(schema), a)
  {
    assert (a.unknown + b.unknown) + c.unknown == a.unknown + (b.unknown + c.unknown);
    assert Merge(Merge(a, b), c).known == Merge(a, Merge(b, c)).known;
    assert Merge(a, Default(schema)).known == a.known == Merge(Default(schema), a).known;
    assert a.unknown + [] == a.unknown == [] + a.unknown;
  }

  /** Parsing records into a message is merging in what they parse to by themselves. */
  lemma ParsingIsMerging(schema: Schema, m: Message, rs: seq<Record>)
    requires Fits(schema, m)
    ensures ApplyAll(schema, m, rs) == Merge(m, ApplyAll(schema, Default(schema), rs))
  {
    LastOneWins(schema, m, rs);
    LastOneWins(schema, Default(schema), rs);
    var alone := ApplyAll(schema, Default(schema), rs);
    assert alone.unknown == Unrecognised(schema, rs);
    assert ApplyAll(schema, m, rs).known == Merge(m, alone).known;
  }

  lemma {:induction false} ApplyAllConcat(schema: Schema, m: Message, a: seq<Record>, b: seq<Record>)
    requires Fits(schema, m)
    ensures ApplyAll(schema, m, a + b) == ApplyAll(schema, ApplyAll(schema, m, a), b)
    decreases a
  {
    if a == [] {
      assert a + b == b;
    } else {
      assert (a + b)[0] == a[0] && (a + b)[1..] == a[1..] + b;
      ApplyAllConcat(schema, Apply(schema, m, a[0]), a[1..], b);
    }
  }

  /** Parsing is a homomorphism from concatenation of streams to merging of messages. */
  lemma ConcatenationIsMerge(schema: Schema, m: Message, a: seq<Byte>, b: seq<Byte>)
    requires Fits(schema, m) && WellFormed(a) && WellFormed(b)
    ensures WellFormed(a + b)
    ensures ApplyAll(schema, m, Tokenise(a + b).0)
         == Merge(ApplyAll(schema, m, Tokenise(a).0), ApplyAll(schema, Default(schema), Tokenise(b).0))
  {
    TokeniseConcat(a, b);
    ApplyAllConcat(schema, m, Tokenise(a).0, Tokenise(b).0);
    ParsingIsMerging(schema, ApplyAll(schema, m, Tokenise(a).0), Tokenise(b).0);
  }

  // ---------- field order ----------

  function OfNumber(rs: seq<Record>, n: nat): seq<Record> {
    if rs == [] then [] else (if rs[0].number == n then [rs[0]] else []) + OfNumber(rs[1..], n)
  }

  lemma {:induction false} LastValueOfNumber(schema: Schema, rs: seq<Record>, n: nat)
    ensures LastValue(schema, rs, n) == LastValue(schema, OfNumber(rs, n), n)
    decreases rs
  {
    if rs != [] {
      LastValueOfNumber(schema, rs[1..], n);
      if rs[0].number == n {
        assert OfNumber(rs, n)[1..] == OfNumber(rs[1..], n);
      } else {
        assert OfNumber(rs, n) == OfNumber(rs[1..], n);
      }
    }
  }

  lemma {:induction false} UnrecognisedOfNumber(schema: Schema, rs: seq<Record>, n: nat)
    ensures OfNumber(Unrecognised(schema, rs), n) == Unrecognised(schema, OfNumber(rs, n))
    decreases rs
  {
    if rs != [] {
      UnrecognisedOfNumber(schema, rs[1..], n);
      var tail := Unrecognised(schema, rs[1..]);
      if !Recognises(schema, rs[0]) {
        assert Unrecognised(schema, rs)[1..] == tail;
      } else {
        assert Unrecognised(schema, rs) == tail;
      }
      if rs[0].number == n {
        assert OfNumber(rs, n)[1..] == OfNumber(rs[1..], n);
      } else {
        assert OfNumber(rs, n) == OfNumber(rs[1..], n);
      }
    }
  }

  /** Messages that only differ in how unknown records of different numbers are interleaved. */
  ghost predicate SameMessage(a: Message, b: Message) {
    a.known == b.known && forall n: nat :: OfNumber(a.unknown, n) == OfNumber(b.unknown, n)
  }

  /** Field order: two streams with the same records of each number, in the same order per number,
      parse to the same message. */
  lemma FieldOrderIsIrrelevant(schema: Schema, rs: seq<Record>, rs': seq<Record>)
    requires forall n: nat :: OfNumber(rs, n) == OfNumber(rs', n)
    ensures SameMessage(ApplyAll(schema, Default(schema), rs), ApplyAll(schema, Default(schema), rs'))
  {
    LastOneWins(schema, Default(schema), rs);
    LastOneWins(schema, Default(schema), rs');
    forall n: nat
      ensures LastValue(schema, rs, n) == LastValue(schema, rs', n)
      ensures OfNumber(Unrecognised(schema, rs), n) == OfNumber(Unrecognised(schema, rs'), n)
    {
      assert OfNumber(rs, n) == OfNumber(rs', n);
      LastValueOfNumber(schema, rs, n);
      LastValueOfNumber(schema, rs', n);
      UnrecognisedOfNumber(schema, rs, n);
      UnrecognisedOfNumber(schema, rs', n);
    }
    var m, m' := ApplyAll(schema, Default(schema), rs), ApplyAll(schema, Default(schema), rs');
    assert m.known == m'.known;
    assert m.unknown == Unrecognised(schema, rs) && m'.unknown == Unrecognised(schema, rs');
  }

  ghost predicate DistinctNumbers(rs: seq<Record>) {
    forall i, j | 0 <= i < j < |rs| :: rs[i].number != rs[j].number
  }

  /** In particular any reordering of records with pairwise distinct numbers. */
  lemma AnyOrder(schema: Schema, rs: seq<Record>, rs': seq<Record>)
    requires multiset(rs) == multiset(rs') && DistinctNumbers(rs)
    ensures SameMessage(ApplyAll(schema, Default(schema), rs), ApplyAll(schema, Default(schema), rs'))
  {
    forall n: nat {
      SameOfNumber(rs, rs', n);
    }
    FieldOrderIsIrrelevant(schema, rs, rs');
  }

  lemma SameOfNumber(rs: seq<Record>, rs': seq<Record>, n: nat)
    requires multiset(rs) == multiset(rs') && DistinctNumbers(rs)
    ensures OfNumber(rs, n) == OfNumber(rs', n)
  {
    AtMostOne(rs, n);
    forall r: Record
      ensures multiset(OfNumber(rs, n))[r] == multiset(OfNumber(rs', n))[r]
    {
      OfNumberCounts(rs, n, r);
      OfNumberCounts(rs', n, r);
    }
    SameIfShort(OfNumber(rs, n), OfNumber(rs', n));
  }

  lemma SameIfShort(a: seq<Record>, b: seq<Record>)
    requires |a| <= 1 && forall r: Record :: multiset(a)[r] == multiset(b)[r]
    ensures a == b
  {
    assert multiset(a) == multiset(b);
    assert |a| == |multiset(a)| == |multiset(b)| == |b|;
    if a != [] {
      assert a == [a[0]] && b == [b[0]];
      assert b[0] in multiset(b);
    }
  }

  lemma {:induction false} OfNumberCounts(rs: seq<Record>, n: nat, r: Record)
    ensures multiset(OfNumber(rs, n))[r] == if r.number == n then multiset(rs)[r] else 0
    decreases rs
  {
    if rs != [] {
      OfNumberCounts(rs[1..], n, r);
      assert rs == [rs[0]] + rs[1..];
    }
  }

  lemma {:induction false} NoneOfNumber(rs: seq<Record>, n: nat)
    requires forall i | 0 <= i < |rs| :: rs[i].number != n
    ensures OfNumber(rs, n) == []
    decreases rs
  {
    if rs != [] {
      NoneOfNumber(rs[1..], n);
    }
  }

  lemma {:induction false} AtMostOne(rs: seq<Record>, n: nat)
    requires DistinctNumbers(rs)
    ensures |OfNumber(rs, n)| <= 1
    decreases rs
  {
    if rs != [] {
      if rs[0].number == n {
        NoneOfNumber(rs[1..], n);
      } else {
        AtMostOne(rs[1..], n);
      }
    }
  }

  // ---------- round trip ----------

  lemma {:induction false} KnownRecordsParse(schema: Schema, m: Message, k: nat)
    requires Conforms(schema, m) && k <= |m.known| < 0x2000_0000 && (m.known != [] ==> m.known[0] == None)
    ensures Unrecognised(schema, KnownRecords(m.known, k)) == []
    ensures forall n | 0 <= n < |m.known| ::
              LastValue(schema, KnownRecords(m.known, k), n) == if n < k then m.known[n] else None
    decreases k
  {
    if k > 1 {
      KnownRecordsParse(schema, m, k - 1);
      if m.known[k - 1].Some? {
        var rs, r := KnownRecords(m.known, k - 1), Record(k - 1, m.known[k - 1].value);
        UnrecognisedConcat(schema, rs, [r]);
        OneRecord(schema, r, 0);
        forall n | 0 <= n < |m.known|
          ensures LastValue(schema, rs + [r], n) == if n < k then m.known[n] else None
        {
          LastValueConcat(schema, rs, [r], n);
          OneRecord(schema, r, n);
        }
      } else {
        assert KnownRecords(m.known, k) == KnownRecords(m.known, k - 1);
      }
    }
  }

  lemma OneRecord(schema: Schema, r: Record, n: nat)
    ensures Unrecognised(schema, [r]) == if Recognises(schema, r) then [] else [r]
    ensures LastValue(schema, [r], n) ==
            if r.number == n && Recognises(schema, r) then Some(Canonical(schema.kinds[n], r.wire)) else None
  {
    assert [r][1..] == [];
  }

  lemma {:induction false} LastValueConcat(schema: Schema, a: seq<Record>, b: seq<Record>, n: nat)
    ensures LastValue(schema, a + b, n) ==
            if LastValue(schema, b, n).Some? then LastValue(schema, b, n) else LastValue(schema, a, n)
    decreases a
  {
    if a == [] {
      assert a + b == b;
    } else {
      assert (a + b)[0] == a[0] && (a + b)[1..] == a[1..] + b;
      LastValueConcat(schema, a[1..], b, n);
    }
  }

  lemma {:induction false} UnrecognisedConcat(schema: Schema, a: seq<Record>, b: seq<Record>)
    ensures Unrecognised(schema, a + b) == Unrecognised(schema, a) + Unrecognised(schema, b)
    decreases a
  {
    if a == [] {
      assert a + b == b;
    } else {
      assert (a + b)[0] == a[0] && (a + b)[1..] == a[1..] + b;
      UnrecognisedConcat(schema, a[1..], b);
    }
  }

  lemma {:induction false} AllUnrecognised(schema: Schema, rs: seq<Record>)
    ensures |Unrecognised(schema, rs)| <= |rs|
    ensures Unrecognised(schema, rs) == rs <==> forall r | r in rs :: !Recognises(schema, r)
    decreases rs
  {
    if rs != [] {
      AllUnrecognised(schema, rs[1..]);
      assert rs == [rs[0]] + rs[1..];
      if !Recognises(schema, rs[0]) {
        assert Unrecognised(schema, rs)[1..] == Unrecognised(schema, rs[1..]);
      }
    }
  }

  /** A table of fields whose numbers can be written. */
  ghost predicate Proper(schema: Schema) {
    0 < |schema.kinds| < 0x2000_0000 && schema.kinds[0] == Unused
  }

  /** Round trip: an initialised message is parsed back from its own bytes, presence flags and unknown
      records included, exactly when none of its unknown records is a field of the table. */
  lemma RoundTrip(schema: Schema, m: Message)
    requires Proper(schema) && Conforms(schema, m) && Initialised(schema, m)
    ensures ParseFrom(schema, Write(m)) == Ok(m) <==> forall r | r in m.unknown :: !Recognises(schema, r)
    ensures ParseFrom(schema, Write(m)).Ok?
  {
    RecordsRoundTrip(Records(m));
    ParsedBack(schema, m);
    AllUnrecognised(schema, m.unknown);
    var parsed := ApplyAll(schema, Default(schema), Records(m));
    assert Initialised(schema, parsed);
    if forall r | r in m.unknown :: !Recognises(schema, r) {
      assert parsed.known == m.known;
    }
  }

  /** What the records of a message parse to. */
  lemma ParsedBack(schema: Schema, m: Message)
    requires Proper(schema) && Conforms(schema, m)
    ensures var parsed := ApplyAll(schema, Default(schema), Records(m));
            && parsed.unknown == Unrecognised(schema, m.unknown)
            && (forall n | 0 <= n < |m.known| :: m.known[n].Some? ==> parsed.known[n].Some?)
            && ((forall r | r in m.unknown :: !Recognises(schema, r)) ==>
                  forall n | 0 <= n < |m.known| :: parsed.known[n] == m.known[n])
  {
    var known := KnownRecords(m.known, |m.known|);
    KnownRecordsParse(schema, m, |m.known|);
    UnrecognisedConcat(schema, known, m.unknown);
    LastOneWins(schema, Default(schema), Records(m));
    forall n | 0 <= n < |m.known|
      ensures var v := LastValue(schema, Records(m), n);
              && (m.known[n].Some? ==> v.Some?)
              && ((forall r | r in m.unknown :: !Recognises(schema, r)) ==> v == m.known[n])
    {
      LastValueConcat(schema, known, m.unknown, n);
      LastValueExists(schema, m.unknown, n);
    }
  }

  /** A message without a required field is not parsed back, unless an unknown record supplies it. */
  lemma UninitialisedIsRejected(schema: Schema, m: Message)
    requires Proper(schema) && Conforms(schema, m) && !Initialised(schema, m)
    ensures (forall r | r in m.unknown :: !Recognises(schema, r)) ==>
            ParseFrom(schema, Write(m)) == Err(MissingRequired)
  {
    RecordsRoundTrip(Records(m));
    ParsedBack(schema, m);
  }

  // ---------- two disjoint languages ----------

  ghost predicate HasVarint(rs: seq<Record>, n: nat) {
    exists r :: r in rs && r.number == n && r.wire.Varint?
  }

  ghost predicate HasBytes(rs: seq<Record>, n: nat) {
    exists r :: r in rs && r.number == n && r.wire.Bytes?
  }

  /** The message has a field n that another schema reads as its own. */
  predicate Lends(schema: Schema, m: Message, n: nat) {
    0 < n < |m.known| && m.known[n].Some? && n < |schema.kinds| && Matches(schema.kinds[n], m.known[n].value)
  }

  lemma {:induction false} KnownRecordsHold(known: seq<Option<Wire>>, k: nat, r: Record)
    requires k <= |known| < 0x2000_0000
    ensures r in KnownRecords(known, k) <==> 0 < r.number < k && known[r.number] == Some(r.wire)
    decreases k
  {
    if k > 1 {
      KnownRecordsHold(known, k - 1, r);
    }
  }

  /** Where the fields of a written message come from, for a reader of any schema. */
  lemma FieldsForAnotherReader(schema: Schema, m: Message, n: nat)
    requires |m.known| < 0x2000_0000
    ensures Occurs(schema, Records(m), n) <==> Lends(schema, m, n) || Occurs(schema, m.unknown, n)
  {
    var known := KnownRecords(m.known, |m.known|);
    if Lends(schema, m, n) {
      KnownRecordsHold(m.known, |m.known|, Record(n, m.known[n].value));
      assert Record(n, m.known[n].value) in Records(m);
    }
    if r :| r in m.unknown && r.number == n && Recognises(schema, r) {
      assert r in Records(m);
    }
    if r :| r in Records(m) && r.number == n && Recognises(schema, r) && r !in m.unknown {
      KnownRecordsHold(m.known, |m.known|, r);
    }
  }

  /** When the bytes of a message pass for another reader. */
  lemma AcceptedExactly(schema: Schema, m: Message)
    requires |m.known| < 0x2000_0000
    ensures ParseFrom(schema, Write(m)).Ok? <==> forall n | n in schema.required :: Occurs(schema, Records(m), n)
    ensures !ParseFrom(schema, Write(m)).Ok? ==> ParseFrom(schema, Write(m)) == Err(MissingRequired)
  {
    RecordsRoundTrip(Records(m));
    ParseSucceedsExactly(schema, Write(m));
  }

  lemma OccursByKind(schema: Schema, rs: seq<Record>, n: nat)
    requires n < |schema.kinds| && schema.kinds[n] != Unused
    ensures Occurs(schema, rs, n) <==> if schema.kinds[n] == BytesField then HasBytes(rs, n) else HasVarint(rs, n)
  {
  }

  /** Bytes of a request pass as a reply exactly when it has both fields they share and an unknown
      record that is the reply's field 8; its own field 8 never is. */
  lemma RequestsAreNotReplies(m: Message)
    requires Conforms(REQUEST, m)
    ensures ParseFrom(REPLY, Write(m)).Ok?
       <==> && (forall n | n in {1, 7} :: m.known[n].Some? || HasVarint(m.unknown, n))
            && HasVarint(m.unknown, 8)
    ensures m.unknown == [] ==> ParseFrom(REPLY, Write(m)) == Err(MissingRequired)
  {
    AcceptedExactly(REPLY, m);
    forall n | n in REPLY.required
      ensures Occurs(REPLY, Records(m), n) <==> (n != 8 && m.known[n].Some?) || HasVarint(m.unknown, n)
    {
      RequestFieldInReply(m, n);
    }
  }

  lemma RequestFieldInReply(m: Message, n: nat)
    requires Conforms(REQUEST, m) && n in REPLY.required
    ensures Occurs(REPLY, Records(m), n) <==> (n != 8 && m.known[n].Some?) || HasVarint(m.unknown, n)
  {
    FieldsForAnotherReader(REPLY, m, n);
    OccursByKind(REPLY, m.unknown, n);
    assert m.known[n].Some? ==> Matches(REQUEST.kinds[n], m.known[n].value);
  }

  /** Bytes of a reply pass as a request exactly when unknown records supply the fields 9, 10 and 11, and
      those of 1, 2, 3, 6 and 7 that the reply does not have. */
  lemma RepliesAreNotRequests(m: Message)
    requires Conforms(REPLY, m)
    ensures ParseFrom(REQUEST, Write(m)).Ok?
       <==> && (forall n | n in {1, 2, 7} :: m.known[n].Some? || HasVarint(m.unknown, n))
            && (forall n | n in {3, 6} :: m.known[n].Some? || HasBytes(m.unknown, n))
            && (forall n | n in {9, 10, 11} :: HasVarint(m.unknown, n))
    ensures m.unknown == [] ==> ParseFrom(REQUEST, Write(m)) == Err(MissingRequired)
  {
    AcceptedExactly(REQUEST, m);
    forall n | n in REQUEST.required
      ensures Occurs(REQUEST, Records(m), n) <==> ReplySupplies(m, n)
    {
      ReplyFieldInRequest(m, n);
    }
  }

  ghost predicate ReplySupplies(m: Message, n: nat)
    requires Fits(REPLY, m)
  {
    if n in {3, 6} then m.known[n].Some? || HasBytes(m.unknown, n)
    else (n in {1, 2, 7} && m.known[n].Some?) || HasVarint(m.unknown, n)
  }

  lemma ReplyFieldInRequest(m: Message, n: nat)
    requires Conforms(REPLY, m) && n in REQUEST.required
    ensures Occurs(REQUEST, Records(m), n) <==> ReplySupplies(m, n)
  {
    FieldsForAnotherReader(REQUEST, m, n);
    OccursByKind(REQUEST, m.unknown, n);
    assert n < |m.known| && m.known[n].Some? ==> Matches(REPLY.kinds[n], m.known[n].value);
  }
}
