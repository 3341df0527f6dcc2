/**
 The assumed contract of the Multiverse transactions that `AtomicTemplate` drives.

 The library itself is not part of the repository.  What the template relies on is stated here as
 functions on a `World`: one committed store shared by all threads, the transactions started so
 far, and the thread-local slot of the thread that runs the templates.  A transaction reads its
 own snapshot overlaid with its private write buffer; nothing it does reaches the store before
 `Commit`.
 */
module Stm {
  import opened JavaInt
  import opened Wrappers
  import opened Templates

  /** The identity of a transactional reference. */
  type Ref = nat

  /** What a reference holds; `Nothing` is the null of a new reference. */
  datatype Value =
    | Nothing
    | Text(text: string)
    | MapOf(entries: map<string, string>)
    | VectorOf(elements: seq<string>)

  type Store = map<Ref, Value>

  function Get(store: Store, ref: Ref): Value {
    if ref in store then store[ref] else Nothing
  }

  /** The updates that the transactional containers perform on their reference. */
  datatype Op =
    | Swap(ref: Ref, value: Value)                // TransactionalRef.swap
    | Put(ref: Ref, key: string, msg: string)     // TransactionalMap.put
    | Add(ref: Ref, msg: string)                  // TransactionalVector.add

  /** The new value of the reference, or None where the container throws because its reference
      does not hold a map or a vector. */
  function Perform(op: Op, current: Value): Option<Value> {
    match op
    case Swap(_, value) => Some(value)
    case Put(_, key, msg) => if current.MapOf? then Some(MapOf(current.entries[key := msg])) else None
    case Add(_, msg) => if current.VectorOf? then Some(VectorOf(current.elements + [msg])) else None
  }

  datatype Status = Active | Aborted | Committed

  datatype Tx = Tx(status: Status, readonly: bool, snapshot: Store, buffer: Store)

  datatype Exn =
    | RetryError                         // a java.lang.Error
    | CommitFailure(conflict: nat)       // unchecked
    | LoadFailure(load: nat)             // unchecked
    | AbortedException                   // unchecked
    | DeadTransaction                    // unchecked: operation on a transaction that is not active
    | IllegalOperation                   // unchecked: write in a read-only transaction, or an empty container
    | TooManyRetries(cause: Option<Exn>) // unchecked
    | Unchecked(name: string)
    | Checked(name: string)
    | InvisibleChecked(wrapped: Exn)     // unchecked

  datatype Event =
    | Started(t: nat)
    | Began(t: nat, active: bool, others: Store)   // others have committed, and an attempt hands t to the body
    | BodyAborted(t: nat)                // the body itself aborted t
    | Failed(t: nat, ex: Exn)            // the attempt ended with ex
    | TemplateAborted(t: nat)
    | Restarted(t: nat)
    | AbortedAndWaited(t: nat)
    | CommittedTx(t: nat, buffer: Store)

  /** counts holds the field `attemptCount` of the template objects, by identity. */
  datatype World = World(store: Store, txs: seq<Tx>, slot: Option<nat>, log: seq<Event>, counts: map<nat, Int32>)
  {
    ghost predicate Valid() {
      slot.Some? ==> slot.value < |txs|
    }

    predicate IsActive(t: nat)
      requires t < |txs|
    {
      txs[t].status == Active
    }

    /** `getAttemptCount`: the field is 0 until it is first written. */
    function Count(template: Template): Int32 {
      if template.id in counts then counts[template.id] else 0
    }

    function SetCount(template: Template, count: Int32): World {
      this.(counts := counts[template.id := count])
    }

    function With(t: nat, tx: Tx, events: seq<Event>): World
      requires t < |txs|
    {
      this.(txs := txs[t := tx], log := log + events)
    }
  }

  function Start(w: World, readonly: bool): World {
    w.(txs := w.txs + [Tx(Active, readonly, w.store, map[])], log := w.log + [Started(|w.txs|)])
  }

  function SetSlot(w: World, t: Option<nat>): World {
    w.(slot := t)
  }

  /** The private writes are dropped; who asked for the abort is only recorded in the log. */
  function Abort(w: World, t: nat, event: Event): World
    requires t < |w.txs|
  {
    w.With(t, w.txs[t].(status := Aborted, buffer := map[]), [event])
  }

  /** A new snapshot of the committed store and an empty buffer. */
  function Fresh(w: World, tx: Tx): Tx {
    Tx(Active, tx.readonly, w.store, map[])
  }

  function Restart(w: World, t: nat): World
    requires t < |w.txs|
  {
    w.With(t, Fresh(w, w.txs[t]), [Restarted(t)])
  }

  /** Assumed: once the wait is over the transaction can be used again, as after `Restart`. */
  function AbortAndWaitForRetry(w: World, t: nat): World
    requires t < |w.txs|
  {
    w.With(t, Fresh(w, w.txs[t]), [AbortedAndWaited(t)])
  }

  /** Both stores hold the same under every one of `keys`. */
  predicate Agree(a: Store, b: Store, keys: set<Ref>) {
    forall r | r in keys :: Get(a, r) == Get(b, r)
  }

  /** A commit can only succeed without interference; even then the adversary may refuse it. */
  predicate CommitSucceeds(w: World, t: nat, granted: bool)
    requires t < |w.txs|
  {
    granted && Agree(w.store, w.txs[t].snapshot, w.txs[t].buffer.Keys)
  }

  function Commit(w: World, t: nat): World
    requires t < |w.txs|
  {
    w.With(t, w.txs[t].(status := Committed), [CommittedTx(t, w.txs[t].buffer)]).(store := w.store + w.txs[t].buffer)
  }

  /** One container operation inside t: reads see the buffer over the snapshot.  If fault is given, the
      reference cannot be loaded in the version that t needs. */
  function Operate(w: World, t: nat, op: Op, fault: Option<nat>): (r: Result<World, Exn>)
    requires t < |w.txs|
  {
    var tx := w.txs[t];
    if tx.status != Active then Err(DeadTransaction)
    else if fault.Some? then Err(LoadFailure(fault.value))
    else if tx.readonly then Err(IllegalOperation)
    else
      match Perform(op, Get(tx.snapshot + tx.buffer, op.ref))
      case None => Err(IllegalOperation)
      case Some(value) => Ok(w.With(t, tx.(buffer := tx.buffer[op.ref := value]), []))
  }
}
