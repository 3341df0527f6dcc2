/**
 The transactional bodies of `InMemStateful` and `InMemStatefulNested`.

 Modelling assumption: `@transactionrequired` runs every method inside an `AtomicTemplate`, so that
 the call of a nested object's method is the call of a joining template.
 */
module InMemState {
  import opened JavaInt
  import opened Wrappers
  import opened Stm
  import opened Templates
  import opened TemplateSpec
  import opened TemplateProperties
  import opened TemplateFlattening
  import opened TemplateAtomicity
  import opened AtomicTemplates

  /** The references behind the three containers of one object. */
  datatype Containers = Containers(map_: Ref, vector_: Ref, ref_: Ref)

  /** Where the updates of one object fail to load their reference in an attempt. */
  datatype Faults = Faults(put: Option<nat>, add: Option<nat>, swap: Option<nat>)

  const EXPECTED := Unchecked("expected")

  function Updates(c: Containers, key: string, msg: string, f: Faults): seq<Action> {
    [Do(Put(c.map_, key, msg), f.put), Do(Add(c.vector_, msg), f.add), Do(Swap(c.ref_, Text(msg)), f.swap)]
  }

  /** A call with a nested object, whose own call goes through the template `required`. */
  datatype NestedCall = NestedCall(c: Containers, nested: Containers, required: Template, key: string, msg: string)
  {
    function Inner(g: Faults, end: End): Action {
      Call(required, [Attempt(map[], Body(Updates(nested, key, msg, g), end), true)], true)
    }
  }

  /** `success(key, msg)` */
  function SuccessBody(c: Containers, key: string, msg: string, f: Faults): Body {
    Body(Updates(c, key, msg, f), Return(""))
  }

  /** `failure(key, msg, failer)`: the failer always throws. */
  function FailureBody(c: Containers, key: string, msg: string, f: Faults): Body {
    Body(Updates(c, key, msg, f), Throw(EXPECTED))
  }

  /** `success(key, msg, nested)` */
  function SuccessNestedBody(call: NestedCall, f: Faults, g: Faults): Body {
    Body(Updates(call.c, call.key, call.msg, f) + [call.Inner(g, Return(""))], Return(""))
  }

  /** `failure(key, msg, nested, failer)` */
  function FailureNestedBody(call: NestedCall, f: Faults, g: Faults): Body {
    Body(Updates(call.c, call.key, call.msg, f) + [call.Inner(g, Throw(EXPECTED))], Return(call.msg))
  }

  /** One object with its three containers, as its methods run inside transaction t. */
  class InMemStateful {
    const stm: Runtime
    const required: AtomicTemplate
    const mapState: Ref
    const vectorState: Ref
    const refState: Ref

    constructor (required: AtomicTemplate, mapState: Ref, vectorState: Ref, refState: Ref)
      ensures this.required == required && this.stm == required.stm
              && State() == Containers(mapState, vectorState, refState)
    {
      this.stm, this.required := required.stm, required;
      this.mapState, this.vectorState, this.refState := mapState, vectorState, refState;
    }

    function State(): Containers {
      Containers(mapState, vectorState, refState)
    }

    ghost predicate Valid()
      reads stm
    {
      required.stm == stm && required.Registered()
    }

    function CallOf(nested: InMemStateful, key: string, msg: string): NestedCall {
      NestedCall(State(), nested.State(), nested.required.Config(), key, msg)
    }

    /** One operation on a container of t, in front of whatever the body does next. */
    method Operation(t: nat, op: Op, fault: Option<nat>, ghost rest: seq<Action>, ghost end: End)
      returns (thrown: Option<Exn>)
      requires Valid() && t < |stm.world.txs|
      modifies stm`world
      ensures Valid() && |stm.world.txs| == |old(stm.world).txs|
      ensures RunActions(old(stm.View()), t, [Do(op, fault)] + rest, end)
              == AfterThrow(thrown, stm.View(), t, rest, end)
    {
      assert ([Do(op, fault)] + rest)[1..] == rest;
      thrown := required.PerformOperation(t, op, fault);
    }

    /** The three updates that all the methods begin with. */
    method Update(t: nat, key: string, msg: string, f: Faults, ghost rest: seq<Action>, ghost end: End)
      returns (thrown: Option<Exn>)
      requires Valid() && t < |stm.world.txs|
      modifies stm`world
      ensures Valid() && |stm.world.txs| == |old(stm.world).txs|
      ensures RunActions(old(stm.View()), t, Updates(State(), key, msg, f) + rest, end)
           == AfterThrow(thrown, stm.View(), t, rest, end)
    {
      ghost var swap := [Do(Swap(refState, Text(msg)), f.swap)] + rest;
      ghost var add := [Do(Add(vectorState, msg), f.add)] + swap;
      assert Updates(State(), key, msg, f) + rest == [Do(Put(mapState, key, msg), f.put)] + add;
      thrown := Operation(t, Put(mapState, key, msg), f.put, add, end);
      if thrown.None? {
        thrown := Operation(t, Add(vectorState, msg), f.add, swap, end);
      }
      if thrown.None? {
        thrown := Operation(t, Swap(refState, Text(msg)), f.swap, rest, end);
      }
    }

    method Success(t: nat, key: string, msg: string, f: Faults) returns (o: Outcome)
      requires Valid() && t < |stm.world.txs|
      modifies stm`world
      ensures Valid()
      ensures var body := SuccessBody(State(), key, msg, f);
              (stm.View(), o) == RunActions(old(stm.View()), t, body.actions, body.end)
    {
      assert Updates(State(), key, msg, f) + [] == Updates(State(), key, msg, f);
      var thrown := Update(t, key, msg, f, [], Return(""));
      o := if thrown.Some? then Threw(thrown.value) else Returned("");
    }

    method Failure(t: nat, key: string, msg: string, f: Faults) returns (o: Outcome)
      requires Valid() && t < |stm.world.txs|
      modifies stm`world
      ensures Valid()
      ensures var body := FailureBody(State(), key, msg, f);
              (stm.View(), o) == RunActions(old(stm.View()), t, body.actions, body.end)
    {
      assert Updates(State(), key, msg, f) + [] == Updates(State(), key, msg, f);
      var thrown := Update(t, key, msg, f, [], Throw(EXPECTED));
      o := if thrown.Some? then Threw(thrown.value) else Threw(EXPECTED);
    }

    method SuccessNested(t: nat, key: string, msg: string, nested: InMemStateful, f: Faults, g: Faults)
      returns (o: Outcome)
      requires Valid() && nested.stm == stm && nested.Valid() && t < |stm.world.txs|
      modifies stm`world, stm.templates.Values`attemptCount
      ensures Valid()
      ensures var body := SuccessNestedBody(CallOf(nested, key, msg), f, g);
              (stm.View(), o) == RunActions(old(stm.View()), t, body.actions, body.end)
    {
      var inner := CallOf(nested, key, msg).Inner(g, Return(""));
      var thrown := Update(t, key, msg, f, [inner], Return(""));
      if thrown.Some? {
        return Threw(thrown.value);
      }
      o := CallNested(t, nested, key, msg, g, Return(""), Return(""));
    }

    method FailureNested(t: nat, key: string, msg: string, nested: InMemStateful, f: Faults, g: Faults)
      returns (o: Outcome)
      requires Valid() && nested.stm == stm && nested.Valid() && t < |stm.world.txs|
      modifies stm`world, stm.templates.Values`attemptCount
      ensures Valid()
      ensures var body := FailureNestedBody(CallOf(nested, key, msg), f, g);
              (stm.View(), o) == RunActions(old(stm.View()), t, body.actions, body.end)
    {
      var inner := CallOf(nested, key, msg).Inner(g, Throw(EXPECTED));
      var thrown := Update(t, key, msg, f, [inner], Return(msg));
      if thrown.Some? {
        return Threw(thrown.value);
      }
      o := CallNested(t, nested, key, msg, g, Throw(EXPECTED), Return(msg));
    }

    /** The call of the nested object's method, through its template, and then the end of the body. */
    method CallNested(t: nat, nested: InMemStateful, key: string, msg: string, g: Faults, innerEnd: End, end: End)
      returns (o: Outcome)
      requires Valid() && nested.stm == stm && nested.Valid() && t < |stm.world.txs|
      modifies stm`world, stm.templates.Values`attemptCount
      ensures Valid()
      ensures (stm.View(), o) == RunActions(old(stm.View()), t, [CallOf(nested, key, msg).Inner(g, innerEnd)], end)
    {
      var inner := CallOf(nested, key, msg).Inner(g, innerEnd);
      InnerIsKnown(CallOf(nested, key, msg), g, innerEnd, stm.Configs());
      RunsLastCall(stm.View(), t, inner, end);
      o := nested.required.Execute(inner.attempts);
      if o.Returned? {
        o := AtEnd(end);
      }
    }
  }

  lemma InnerIsKnown(call: NestedCall, g: Faults, end: End, configs: map<nat, Template>)
    ensures Known(call.Inner(g, end).attempts, configs)
  {
    var actions := Updates(call.nested, call.key, call.msg, g);
    assert KnownActions(actions[1..][1..][1..], configs);
    assert KnownActions(actions[1..][1..], configs);
    assert KnownActions(actions[1..], configs);
    assert call.Inner(g, end).attempts[1..] == [];
  }

  function AfterThrow(thrown: Option<Exn>, w: World, t: nat, rest: seq<Action>, end: End): (World, Outcome)
    requires w.Valid() && t < |w.txs|
  {
    if thrown.Some? then (w, Threw(thrown.value)) else RunActions(w, t, rest, end)
  }

  lemma RunsLastCall(w: World, t: nat, call: Action, end: End)
    requires w.Valid() && t < |w.txs| && call.Call?
    ensures var (w', o) := RunTemplate(w, call.template, call.attempts);
            RunActions(w, t, [call], end) == (w', if o.Returned? then AtEnd(end) else WrapIf(call.viaExecute, o))
  {
    assert [call][1..] == [];
    var (w', o) := RunTemplate(w, call.template, call.attempts);
    assert RunActions(w', t, [], end) == (w', AtEnd(end));
  }

  // ---------- all or nothing ----------

  /** The six containers of two objects, none shared, and an advice that joins. */
  ghost predicate Separate(call: NestedCall) {
    && |{call.c.map_, call.c.vector_, call.c.ref_, call.nested.map_, call.nested.vector_, call.nested.ref_}| == 6
    && !call.required.ignoreThreadLocal
  }

  /** after differs from before by the three updates of one object, and nothing else under keep. */
  ghost predicate Updated(before: Store, after: Store, c: Containers, key: string, msg: string) {
    && IsInitialized(before, c)
    && Get(after, c.map_) == MapOf(Get(before, c.map_).entries[key := msg])
    && Get(after, c.vector_) == VectorOf(Get(before, c.vector_).elements + [msg])
    && Get(after, c.ref_) == Text(msg)
  }

  /** All six updates and nothing else. */
  ghost predicate UpdatedBoth(before: Store, after: Store, call: NestedCall) {
    && Updated(before, after, call.c, call.key, call.msg) && Updated(before, after, call.nested, call.key, call.msg)
    && SameElsewhere(before, after, Refs(call.c) + Refs(call.nested))
  }

  /** `init` has been called: the map and the vector are there. */
  predicate IsInitialized(store: Store, c: Containers) {
    Get(store, c.map_).MapOf? && Get(store, c.vector_).VectorOf?
  }

  ghost predicate SameElsewhere(before: Store, after: Store, refs: set<Ref>) {
    forall r | r !in refs :: Get(before, r) == Get(after, r)
  }

  function Refs(c: Containers): set<Ref> {
    {c.map_, c.vector_, c.ref_}
  }

  lemma AloneOp(store: Store, op: Op, fault: Option<nat>, rest: seq<Action>)
    ensures Alone(store, [Do(op, fault)] + rest) ==
            match Perform(op, Get(store, op.ref))
            case None => None
            case Some(value) => if fault.Some? then None else Alone(store[op.ref := value], rest)
  {
    assert ([Do(op, fault)] + rest)[1..] == rest;
  }

  lemma AloneUpdates(store: Store, c: Containers, key: string, msg: string, f: Faults, rest: seq<Action>)
    returns (r: Option<Store>)
    requires c.map_ != c.vector_ && c.map_ != c.ref_ && c.vector_ != c.ref_
    ensures Alone(store, Updates(c, key, msg, f) + rest) == (if r.None? then None else Alone(r.value, rest))
    ensures r.Some? <==> f == Faults(None, None, None) && IsInitialized(store, c)
    ensures r.Some? ==> Updated(store, r.value, c, key, msg) && SameElsewhere(store, r.value, Refs(c))
  {
    var put, add, swap := Put(c.map_, key, msg), Add(c.vector_, msg), Swap(c.ref_, Text(msg));
    var last := [Do(swap, f.swap)] + rest;
    assert Updates(c, key, msg, f) + rest == [Do(put, f.put)] + ([Do(add, f.add)] + last);
    AloneOp(store, put, f.put, [Do(add, f.add)] + last);
    var entries := Perform(put, Get(store, c.map_));
    if entries.None? || f.put.Some? {
      return None;
    }
    var store1 := store[c.map_ := entries.value];
    AloneOp(store1, add, f.add, last);
    var elements := Perform(add, Get(store1, c.vector_));
    if elements.None? || f.add.Some? {
      return None;
    }
    var store2 := store1[c.vector_ := elements.value];
    AloneOp(store2, swap, f.swap, rest);
    if f.swap.Some? {
      return None;
    }
    r := Some(store2[c.ref_ := Text(msg)]);
  }

  ghost predicate IsSuccess(body: Body, call: NestedCall) {
    exists f, g :: body == SuccessNestedBody(call, f, g)
  }

  ghost predicate IsFailure(body: Body, call: NestedCall) {
    exists f, g :: body == FailureNestedBody(call, f, g)
  }

  /** One of the two overloads of `failure`, on whatever objects. */
  ghost predicate Fails(body: Body) {
    || (exists c, key, msg, f :: body == FailureBody(c, key, msg, f))
    || (exists call: NestedCall :: !call.required.ignoreThreadLocal && IsFailure(body, call))
  }

  lemma NestedBodyJoins(call: NestedCall, f: Faults, g: Faults, end: End)
    requires !call.required.ignoreThreadLocal
    ensures Joins(Updates(call.c, call.key, call.msg, f) + [call.Inner(g, end)], true)
  {
    var inner := Updates(call.nested, call.key, call.msg, g);
    OpsInline(inner, [], end);
    assert inner + [] == inner && [call.Inner(g, end)][1..] == [];
    assert JoinsAttempt(call.Inner(g, end).attempts[0]);
    assert Joins([call.Inner(g, end)], true);
    OpsInline(Updates(call.c, call.key, call.msg, f), [call.Inner(g, end)], end);
  }

  lemma NestedAttemptJoins(call: NestedCall, a: Attempt)
    requires !call.required.ignoreThreadLocal && (IsSuccess(a.body, call) || IsFailure(a.body, call))
    ensures JoinsAttempt(a)
  {
    if IsSuccess(a.body, call) {
      var f, g :| a.body == SuccessNestedBody(call, f, g);
      NestedBodyJoins(call, f, g, Return(""));
    } else {
      var f, g :| a.body == FailureNestedBody(call, f, g);
      NestedBodyJoins(call, f, g, Throw(EXPECTED));
    }
  }

  /** Plain operations join and are their own inlining. */
  lemma {:induction false} OpsInline(ops: seq<Action>, rest: seq<Action>, end: End)
    requires forall a | a in ops :: a.Do?
    ensures Joins(rest, true) ==> Joins(ops + rest, true)
    ensures Inlined(ops + rest, end) == Body(ops + Inlined(rest, end).actions, Inlined(rest, end).end)
    decreases ops
  {
    if ops == [] {
      assert ops + rest == rest;
    } else {
      assert ops[0] in ops;
      assert (ops + rest)[0] == ops[0] && (ops + rest)[1..] == ops[1..] + rest;
      OpsInline(ops[1..], rest, end);
    }
  }

  /** By itself the body updates all six containers or does not reach its end. */
  lemma SuccessAlone(store: Store, call: NestedCall, f: Faults, g: Faults)
    requires Separate(call)
    ensures var r := Alone(store, SuccessNestedBody(call, f, g).actions); r.Some? ==> UpdatedBoth(store, r.value, call)
  {
    var last := call.Inner(g, Return(""));
    var inner := Updates(call.nested, call.key, call.msg, g);
    var r := AloneUpdates(store, call.c, call.key, call.msg, f, [last]);
    if r.Some? {
      var r' := AloneUpdates(r.value, call.nested, call.key, call.msg, g, []);
      assert inner + [] == inner && [last][1..] == [];
    }
  }

  /** A committed `success(key, msg, nested)` updates all six containers together, on top of what the
      other threads had committed by then; a run that does not return updates none.  Any attempt may
      stop at any operation that cannot load its reference. */
  lemma SuccessIsAllOrNothing(w: World, template: Template, attempts: seq<Attempt>, call: NestedCall) returns (n: nat)
    requires w.Valid() && !template.ignoreThreadLocal && Usable(w, template).None?
    requires Separate(call) && forall a | a in attempts :: IsSuccess(a.body, call)
    ensures var (w', o) := RunTemplate(w, template, attempts);
            && n == AttemptsMade(w, template, attempts)
            && if o.Returned? then UpdatedBoth(Others(w.store, attempts, n), w'.store, call)
               else w'.store == Others(w.store, attempts, n)
  {
    forall a | a in attempts ensures JoinsAttempt(a) {
      NestedAttemptJoins(call, a);
    }
    n := AttemptsMade(w, template, attempts);
    Atomicity(w, template, attempts);
    if RunTemplate(w, template, attempts).1.Returned? {
      assert attempts[n - 1] in attempts;
      var f, g :| attempts[n - 1].body == SuccessNestedBody(call, f, g);
      SuccessAlone(Others(w.store, attempts, n), call, f, g);
    }
  }

  /** `success(key, msg)`: its own three containers and nothing else if it returns, nothing otherwise. */
  lemma PlainSuccessIsAllOrNothing(w: World, template: Template, attempts: seq<Attempt>, c: Containers,
                                   key: string, msg: string)
    returns (n: nat)
    requires w.Valid() && !template.ignoreThreadLocal && Usable(w, template).None? && |Refs(c)| == 3
    requires forall a | a in attempts :: exists f :: a.body == SuccessBody(c, key, msg, f)
    ensures var (w', o) := RunTemplate(w, template, attempts);
            && n == AttemptsMade(w, template, attempts)
            && var base := Others(w.store, attempts, n);
               if o.Returned? then Updated(base, w'.store, c, key, msg) && SameElsewhere(base, w'.store, Refs(c))
               else w'.store == base
  {
    forall a | a in attempts ensures JoinsAttempt(a) {
      var f :| a.body == SuccessBody(c, key, msg, f);
      UpdatesInline(c, key, msg, f, a.body.end);
    }
    n := AttemptsMade(w, template, attempts);
    Atomicity(w, template, attempts);
    if RunTemplate(w, template, attempts).1.Returned? {
      assert attempts[n - 1] in attempts;
      var f :| attempts[n - 1].body == SuccessBody(c, key, msg, f);
      PlainAlone(Others(w.store, attempts, n), c, key, msg, f);
    }
  }

  lemma PlainAlone(store: Store, c: Containers, key: string, msg: string, f: Faults)
    requires |Refs(c)| == 3
    ensures var r := Alone(store, Updates(c, key, msg, f));
            r.Some? ==> Updated(store, r.value, c, key, msg) && SameElsewhere(store, r.value, Refs(c))
  {
    var r := AloneUpdates(store, c, key, msg, f, []);
    assert Updates(c, key, msg, f) + [] == Updates(c, key, msg, f);
  }

  lemma UpdatesInline(c: Containers, key: string, msg: string, f: Faults, end: End)
    ensures Joins(Updates(c, key, msg, f), true)
    ensures Inlined(Updates(c, key, msg, f), end) == Body(Updates(c, key, msg, f), end)
  {
    OpsInline(Updates(c, key, msg, f), [], end);
    assert Updates(c, key, msg, f) + [] == Updates(c, key, msg, f);
  }

  /** Neither `failure(key, msg, failer)` nor `failure(key, msg, nested, failer)` ever returns, and they
      leave all containers, and everything else, as the other threads left them.  They end with the
      failer's exception, with that of a container that is not initialised, or after too many load
      failures. */
  lemma FailureChangesNothing(w: World, template: Template, attempts: seq<Attempt>) returns (n: nat)
    requires w.Valid() && !template.ignoreThreadLocal && Usable(w, template).None?
    requires forall a | a in attempts :: Fails(a.body)
    ensures var (w', o) := RunTemplate(w, template, attempts);
            && n == AttemptsMade(w, template, attempts) && w'.store == Others(w.store, attempts, n)
            && match o {
                 case Returned(_) => false
                 case Threw(ex) => ex in {EXPECTED, IllegalOperation} || GaveUpLoading(ex)
                 case Running => true
               }
  {
    forall a | a in attempts ensures JoinsAttempt(a) {
      FailureJoins(a);
    }
    n := AttemptsMade(w, template, attempts);
    Atomicity(w, template, attempts);
    assert Wrap32(0) == 0;
    FailureLoop(Entered(w, template), |w.txs|, template, attempts, None);
  }

  predicate GaveUpLoading(ex: Exn) {
    ex.TooManyRetries? && ex.cause.Some? && ex.cause.value.LoadFailure?
  }

  lemma FailureJoins(a: Attempt)
    requires Fails(a.body)
    ensures JoinsAttempt(a)
  {
    if c, key, msg, f :| a.body == FailureBody(c, key, msg, f) {
      UpdatesInline(c, key, msg, f, a.body.end);
    } else {
      var call: NestedCall :| !call.required.ignoreThreadLocal && IsFailure(a.body, call);
      NestedAttemptJoins(call, a);
    }
  }

  lemma {:induction false} FailureLoop(w: World, t: nat, template: Template, attempts: seq<Attempt>, cause: Option<Exn>)
    requires Fit(w, t) && forall a | a in attempts :: Fails(a.body)
    requires (cause.Some? && cause.value.LoadFailure?) || (cause == None && MayTry(w, template))
    ensures var o := Loop(w, t, template, attempts, cause).1;
            o == Running || (o.Threw? && (o.ex in {EXPECTED, IllegalOperation} || GaveUpLoading(o.ex)))
    decreases attempts
  {
    if MayTry(w, template) && attempts != [] {
      var a := attempts[0];
      FailureRound(w, t, a, cause);
      var (w', escapes, cause') := Round(w, t, a, cause);
      if escapes.None? {
        FailureLoop(Counted(w', template), t, template, attempts[1..], cause');
      }
    }
  }

  lemma FailureRound(w: World, t: nat, a: Attempt, cause: Option<Exn>)
    requires Fit(w, t) && Fails(a.body)
    ensures var (w', escapes, cause') := Round(w, t, a, cause);
            if escapes.None? then Fit(w', t) && cause'.Some? && cause'.value.LoadFailure?
            else escapes.value in {Threw(EXPECTED), Threw(IllegalOperation)}
  {
    FailureJoins(a);
    RoundStore(w, t, a, cause);
    FailureBodyEnds(Begin(w, t, a.others), t, a);
  }

  lemma FailureBodyEnds(w: World, t: nat, a: Attempt)
    requires Current(w, t, true) && Fails(a.body)
    ensures var o := RunBody(w, t, a).1; o.Threw? && (o.ex in {EXPECTED, IllegalOperation} || o.ex.LoadFailure?)
  {
    if c, key, msg, f :| a.body == FailureBody(c, key, msg, f) {
      OpsEnd(w, t, Updates(c, key, msg, f), Throw(EXPECTED));
    } else {
      var call: NestedCall :| !call.required.ignoreThreadLocal && IsFailure(a.body, call);
      NestedFailureEnds(w, t, a, call);
    }
  }

  lemma NestedFailureEnds(w: World, t: nat, a: Attempt, call: NestedCall)
    requires Current(w, t, true) && !call.required.ignoreThreadLocal && IsFailure(a.body, call)
    ensures var o := RunBody(w, t, a).1; o.Threw? && (o.ex in {EXPECTED, IllegalOperation} || o.ex.LoadFailure?)
  {
    NestedAttemptJoins(call, a);
    var f, g :| a.body == FailureNestedBody(call, f, g);
    AttemptJoinsWhatItReaches(w, t, a);
    AttemptFlattens(w, t, a);
    FailureInlined(call, f, g);
    OpsEnd(w, t, Updates(call.c, call.key, call.msg, f) + Updates(call.nested, call.key, call.msg, g), Throw(EXPECTED));
  }

  lemma FailureInlined(call: NestedCall, f: Faults, g: Faults)
    ensures var body := FailureNestedBody(call, f, g);
            Inlined(body.actions, body.end) ==
            Body(Updates(call.c, call.key, call.msg, f) + Updates(call.nested, call.key, call.msg, g), Throw(EXPECTED))
  {
    var inner := Updates(call.nested, call.key, call.msg, g);
    var last := call.Inner(g, Throw(EXPECTED));
    OpsInline(inner, [], Throw(EXPECTED));
    assert inner + [] == inner;
    assert Inlined([last], Return(call.msg)) == Body(inner, Throw(EXPECTED));
    OpsInline(Updates(call.c, call.key, call.msg, f), [last], Return(call.msg));
  }

  /** Operations on an active transaction come to the end, or stop at one of two exceptions. */
  lemma {:induction false} OpsEnd(w: World, t: nat, actions: seq<Action>, end: End)
    requires w.Valid() && t < |w.txs| && w.IsActive(t) && forall a | a in actions :: a.Do?
    ensures var o := RunActions(w, t, actions, end).1;
            o == AtEnd(end) || o == Threw(IllegalOperation) || (o.Threw? && o.ex.LoadFailure?)
    decreases actions
  {
    if actions != [] {
      assert actions[0] in actions;
      var r := Operate(w, t, actions[0].op, actions[0].fault);
      if r.Ok? {
        OpsEnd(r.value, t, actions[1..], end);
      }
    }
  }

  // ---------- any number of runs ----------

  /** What the other threads commit before an attempt, where it fails to load, and if it may commit. */
  datatype Try = Try(others: Store, f: Faults, g: Faults, granted: bool)

  /** One call of `success` or `failure` on both objects. */
  datatype Run = Run(succeed: bool, key: string, msg: string, tries: seq<Try>)

  function BodyOf(run: Run, call: NestedCall, t: Try): Body {
    if run.succeed then SuccessNestedBody(call, t.f, t.g) else FailureNestedBody(call, t.f, t.g)
  }

  function Script(run: Run, call: NestedCall): (script: seq<Attempt>)
    ensures forall a | a in script :: if run.succeed then IsSuccess(a.body, call) else IsFailure(a.body, call)
  {
    seq(|run.tries|, i requires 0 <= i < |run.tries| =>
      Attempt(run.tries[i].others, BodyOf(run, call, run.tries[i]), run.tries[i].granted))
  }

  /** The call of a run on the two objects of a given one. */
  function CallOfRun(call: NestedCall, run: Run): NestedCall {
    call.(key := run.key, msg := run.msg)
  }

  /** The runs one after the other, each in its own template, until one is still running. */
  function History(w: World, template: Template, runs: seq<Run>, call: NestedCall): (r: (World, seq<Outcome>))
    requires w.Valid()
    ensures |r.1| <= |runs|
    decreases runs
  {
    if runs == [] then (w, [])
    else
      var (w', o) := RunTemplate(w, template, Script(runs[0], CallOfRun(call, runs[0])));
      if o.Running? then (w', [o])
      else
        var (w'', outcomes) := History(w', template, runs[1..], call);
        (w'', [o] + outcomes)
  }

  /** One run, from before to after: over what the other threads committed in its first n attempts, all
      six updates if it returned, and nothing otherwise. */
  ghost predicate RunLinks(before: Store, after: Store, run: Run, o: Outcome, call: NestedCall, n: nat) {
    && n <= |run.tries|
    && var call' := CallOfRun(call, run);
    && var base := Others(before, Script(run, call'), n);
       if o.Returned? then run.succeed && UpdatedBoth(base, after, call') else after == base
  }

  /** before and after are linked by the runs that were made, in their order, and by the other threads. */
  ghost predicate Linked(before: Store, after: Store, runs: seq<Run>, outcomes: seq<Outcome>, call: NestedCall)
    requires |outcomes| <= |runs|
    decreases |outcomes|
  {
    if outcomes == [] then before == after
    else
      exists mid, n ::
        RunLinks(before, mid, runs[0], outcomes[0], call, n) && Linked(mid, after, runs[1..], outcomes[1..], call)
  }

  /** Whatever the prior state, however long the history, and whatever the other threads commit
      meanwhile: the six containers hold the updates of the runs that returned, all six for each of
      them, and nothing of any other run. */
  lemma {:induction false} HistoryIsAllOrNothing(w: World, template: Template, runs: seq<Run>, call: NestedCall)
    requires w.Valid() && !template.ignoreThreadLocal && w.slot == None && Separate(call)
    ensures var (w', outcomes) := History(w, template, runs, call);
            Linked(w.store, w'.store, runs, outcomes, call)
    decreases runs
  {
    if runs != [] {
      var (w1, o) := RunTemplate(w, template, Script(runs[0], CallOfRun(call, runs[0])));
      var n := RunIsAllOrNothing(w, template, runs[0], call);
      if o.Running? {
        LinkRun(w.store, w1.store, w1.store, runs, o, [], call, n);
        assert [o] + [] == [o];
      } else {
        HistoryIsAllOrNothing(w1, template, runs[1..], call);
        var (w', outcomes) := History(w1, template, runs[1..], call);
        LinkRun(w.store, w1.store, w'.store, runs, o, outcomes, call, n);
      }
    }
  }

  lemma LinkRun(before: Store, mid: Store, after: Store, runs: seq<Run>, o: Outcome, rest: seq<Outcome>,
                call: NestedCall, n: nat)
    requires |rest| < |runs| && RunLinks(before, mid, runs[0], o, call, n) && Linked(mid, after, runs[1..], rest, call)
    ensures Linked(before, after, runs, [o] + rest, call)
  {
    var outcomes := [o] + rest;
    assert outcomes[0] == o && outcomes[1..] == rest;
    assert RunLinks(before, mid, runs[0], outcomes[0], call, n) && Linked(mid, after, runs[1..], outcomes[1..], call);
  }

  lemma RunIsAllOrNothing(w: World, template: Template, run: Run, call: NestedCall) returns (n: nat)
    requires w.Valid() && !template.ignoreThreadLocal && w.slot == None && Separate(call)
    ensures var (w1, o) := RunTemplate(w, template, Script(run, CallOfRun(call, run)));
            && RunLinks(w.store, w1.store, run, o, call, n)
            && (!o.Running? ==> w1.slot == None)
  {
    var call' := CallOfRun(call, run);
    var script := Script(run, call');
    forall a | a in script ensures JoinsAttempt(a) {
      NestedAttemptJoins(call', a);
    }
    if run.succeed {
      n := SuccessIsAllOrNothing(w, template, script, call');
    } else {
      n := FailureChangesNothing(w, template, script);
    }
  }
}
