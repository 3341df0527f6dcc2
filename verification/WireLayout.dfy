/** The bytes themselves: digits of a varint, tags, the fields of the two messages, and what is refused. */
module WireLayout {
  import opened Wrappers
  import opened WireFormat
  import opened WireProperties
  import opened Messages

  // ---------- varints ----------

  /** Seven bits a byte, the least significant ones first. */
  function Digits(b: seq<Byte>): nat {
    if b == [] then 0 else b[0] % 128 + 128 * Digits(b[1..])
  }

  /** The high bit is set on every byte but the last. */
  ghost predicate IsVarint(b: seq<Byte>) {
    b != [] && forall i | 0 <= i < |b| :: b[i] >= 128 <==> i < |b| - 1
  }

  /** The bytes of a number are its digits to the base 128, with the high bit on all but the last and no
      superfluous zero at the end. */
  lemma {:induction false} VarintLayout(n: nat)
    ensures var b := EncodeVarint(n); IsVarint(b) && Digits(b) == n && (|b| > 1 ==> b[|b| - 1] > 0)
    decreases n
  {
    var b := EncodeVarint(n);
    if n < 128 {
      assert b[1..] == [];
    } else {
      VarintLayout(n / 128);
      var rest := EncodeVarint(n / 128);
      assert b[1..] == rest;
      forall i | 0 <= i < |b| ensures b[i] >= 128 <==> i < |b| - 1 {
        if i > 0 {
          assert b[i] == rest[i - 1];
        }
      }
    }
  }

  /** Reading a varint stops behind the first byte without the high bit, which must be among the first
      `limit` ones; longer ones are malformed. */
  lemma {:induction false} VarintRead(b: seq<Byte>, limit: nat)
    ensures match ReadGroups(b, limit)
            case Ok((n, rest)) =>
              && |rest| < |b| <= |rest| + limit && rest == b[|b| - |rest|..]
              && IsVarint(b[..|b| - |rest|]) && n == Digits(b[..|b| - |rest|])
            case Err(e) =>
              && e == (if |b| < limit then Truncated else MalformedVarint)
              && forall i | 0 <= i < |b| && i < limit :: b[i] >= 128
    decreases limit
  {
    if limit > 0 && b != [] {
      if b[0] < 128 {
        assert b[..1][1..] == [];
      } else {
        VarintRead(b[1..], limit - 1);
        match ReadGroups(b[1..], limit - 1) {
          case Ok((n, rest)) => LongerVarint(b, |b| - |rest|);
          case Err(_) =>
            forall i | 0 <= i < |b| && i < limit ensures b[i] >= 128 {
              if i > 0 {
                assert b[i] == b[1..][i - 1];
              }
            }
        }
      }
    }
  }

  lemma LongerVarint(b: seq<Byte>, k: nat)
    requires 1 < k <= |b| && b[0] >= 128 && IsVarint(b[1..][..k - 1])
    ensures IsVarint(b[..k]) && Digits(b[..k]) == b[0] - 128 + 128 * Digits(b[1..][..k - 1])
    ensures b[1..][k - 1..] == b[k..]
  {
    assert b[..k][1..] == b[1..][..k - 1];
    forall i | 0 <= i < k ensures b[..k][i] >= 128 <==> i < k - 1 {
      if i > 0 {
        assert b[..k][i] == b[1..][..k - 1][i - 1];
      }
    }
  }

  // ---------- records ----------

  /** One record of every wire type, with the examples of the encoding guide first. */
  lemma RecordLayout(eight: Eight, four: Four)
    ensures EncodeRecord(Record(1, Varint(150))) == [0x08, 0x96, 0x01]
    ensures EncodeRecord(Record(2, Bytes([0x74, 0x65, 0x73, 0x74, 0x69, 0x6e, 0x67])))
         == [0x12, 0x07, 0x74, 0x65, 0x73, 0x74, 0x69, 0x6e, 0x67]
    ensures EncodeRecord(Record(1, Fixed64(eight))) == [0x09] + eight
    ensures EncodeRecord(Record(1, Group([]))) == [0x0b, 0x0c]
    ensures EncodeRecord(Record(1, Fixed32(four))) == [0x0d] + four
    ensures EncodeRecord(Record(16, Varint(0))) == [0x80, 0x01, 0x00]
  {
  }

  /** A field of 32 bits takes the low ones of a wider varint, and a flag is set if one of these is. */
  lemma UpperBitsAreDropped(low: UInt32, high: nat)
    requires high < 0x1_0000_0000
    ensures Canonical(UInt32Field, Varint(0x1_0000_0000 * high + low)) == Varint(low)
    ensures Canonical(BoolField, Varint(0x1_0000_0000 * high + low)) == Varint(if low == 0 then 0 else 1)
  {
    assert (0x1_0000_0000 * high + low) % 0x1_0000_0000 == low;
  }

  // ---------- what is refused ----------

  /** A stream that stops inside a record is refused, wherever that is. */
  lemma TruncatedIsRefused(schema: Schema, rs: seq<Record>, r: Record, k: nat)
    requires 0 < k < |EncodeRecord(r)|
    ensures var result := ParseFrom(schema, EncodeRecords(rs) + EncodeRecord(r)[..k]);
            result.Err? && result.error.Malformed?
  {
    var (all, cut) := (EncodeRecord(r), EncodeRecord(r)[..k]);
    CutIsBad(r, k);
    RecordsRoundTrip(rs);
    TokeniseConcat(EncodeRecords(rs), cut);
    assert Tokenise(cut) == ([], Failed(ReadRecord(cut).error));
  }

  /** No record begins another one. */
  lemma CutIsBad(r: Record, k: nat)
    requires 0 < k < |EncodeRecord(r)|
    ensures ReadRecord(EncodeRecord(r)[..k]).Bad?
  {
    var (all, cut, more) := (EncodeRecord(r), EncodeRecord(r)[..k], EncodeRecord(r)[k..]);
    assert cut + more == all && all + [] == all;
    RecordRoundTrip(r, []);
    if !ReadRecord(cut).Bad? {
      RecordExtends(cut, more);
      assert false;
    }
  }

  /** So is one that goes on after its records with an error or an end-group tag. */
  lemma MalformedIsRefused(schema: Schema, rs: seq<Record>, tail: seq<Byte>)
    requires tail != [] && !ReadRecord(tail).Next?
    ensures ParseFrom(schema, EncodeRecords(rs) + tail)
         == Err(Malformed(if ReadRecord(tail).Bad? then ReadRecord(tail).error else InvalidEndTag))
  {
    RecordsRoundTrip(rs);
    TokeniseConcat(EncodeRecords(rs), tail);
  }
}
