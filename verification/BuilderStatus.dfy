/** How a builder call ends, and what merging and parsing have left to do. */
module BuilderStatus {
  import opened Wrappers
  import opened WireFormat
  import opened Messages

  datatype Status = Done | NullPointer | IllegalState | Uninitialised | Invalid(error: WireError)

  /** What a setter can be called with: a value of the field's type, or null where that is a reference. */
  predicate FitsField(schema: Schema, number: nat, value: Option<Wire>) {
    && 0 < number < |schema.kinds| && schema.kinds[number] != Unused
    && match value
       case None => schema.kinds[number] == BytesField
       case Some(w) => Matches(schema.kinds[number], w) && Canonical(schema.kinds[number], w) == w
  }

  /** The fields below k merged, the others still as they were. */
  function MergedBelow(mine: seq<Option<Wire>>, theirs: seq<Option<Wire>>, k: nat): seq<Option<Wire>>
    requires |mine| == |theirs|
  {
    seq(|mine|, n requires 0 <= n < |mine| => if n < k && theirs[n].Some? then theirs[n] else mine[n])
  }

  lemma MergedAll(a: Message, b: Message)
    requires |a.known| == |b.known|
    ensures MergedBelow(a.known, b.known, |a.known|) == Merge(a, b).known
  {
  }

  /** What m becomes with the records of b, and where they stop. */
  function Remaining(schema: Schema, m: Message, b: seq<Byte>): (Message, Stop)
    requires Fits(schema, m)
  {
    var (rs, stop) := Tokenise(b);
    (ApplyAll(schema, m, rs), stop)
  }

  lemma RemainingNext(schema: Schema, m: Message, b: seq<Byte>)
    requires Fits(schema, m)
    ensures Remaining(schema, m, b) ==
            if b == [] then (m, AtEnd)
            else
              match ReadRecord(b)
              case Bad(e) => (m, Failed(e))
              case EndGroup(n, rest) => (m, AtEndGroup(n, rest))
              case Next(r, rest) => Remaining(schema, Apply(schema, m, r), rest)
  {
    if b != [] && ReadRecord(b).Next? {
      var (rs, stop) := Tokenise(ReadRecord(b).rest);
      assert ([ReadRecord(b).record] + rs)[1..] == rs;
    }
  }

  /** What the switch did with a tag, as far as the fields from lo to hi are concerned: it handled
      exactly the tags of their numbers and wire types, and then as the record demands. */
  ghost predicate TagOutcome(schema: Schema, tag: UInt32, lo: nat, hi: nat, handled: bool, error: Option<WireError>,
                             b: seq<Byte>, b': seq<Byte>, known: seq<Option<Wire>>, known': seq<Option<Wire>>)
    requires tag >= 8 && |known| == |schema.kinds| && 0 < lo <= hi < |schema.kinds|
  {
    var step := ReadValue(tag, b);
    && (handled <==> lo <= tag / 8 <= hi && tag % 8 == KindType(schema.kinds[tag / 8]))
    && (!handled ==> error.None? && b' == b && known' == known)
    && (handled && error.Some? ==> step == Bad(error.value) && known' == known)
    && (handled && error.None? ==>
          step.Next? && b' == step.rest && known' == Apply(schema, Message(known, []), step.record).known)
  }

  function KindType(kind: Kind): nat {
    match kind
    case Unused => 8
    case BytesField => 2
    case _ => 0
  }
}
