/** When the two overloads of `success` return: their containers are initialised, as far as it is up to them. */
module InMemReturns {
  import opened JavaInt
  import opened Wrappers
  import opened Stm
  import opened Templates
  import opened TemplateSpec
  import opened TemplateProperties
  import opened TemplateFlattening
  import opened TemplateAtomicity
  import opened InMemState

  /** Container operations that can load their references. */
  predicate Loads(ops: seq<Action>) {
    forall a | a in ops :: a.Do? && a.fault.None?
  }

  /** They write nothing but these references. */
  predicate WritesIn(ops: seq<Action>, refs: set<Ref>) {
    forall a | a in ops :: a.Do? ==> a.op.ref in refs
  }

  /** In an active update transaction operations run to their end if and only if they do by themselves on
      what the transaction sees, and stop at the container that is not initialised otherwise. */
  lemma {:induction false} OpsRun(w: World, t: nat, ops: seq<Action>, end: End, refs: set<Ref>)
    requires w.Valid() && t < |w.txs| && w.IsActive(t) && !w.txs[t].readonly && Loads(ops) && WritesIn(ops, refs)
    ensures var (w', o) := RunActions(w, t, ops, end);
            && o == (if Alone(w.txs[t].snapshot + w.txs[t].buffer, ops).Some? then AtEnd(end)
              else Threw(IllegalOperation))
            && |w'.txs| == |w.txs| && w'.store == w.store && w'.IsActive(t) && w'.txs[t].snapshot == w.txs[t].snapshot
            && w'.txs[t].buffer.Keys <= w.txs[t].buffer.Keys + refs
    decreases ops
  {
    if ops != [] {
      assert ops[0] in ops && forall a | a in ops[1..] :: a in ops;
      var (op, tx) := (ops[0].op, w.txs[t]);
      var r := Operate(w, t, op, None);
      if r.Ok? {
        UpdatedOverlay(tx.snapshot, tx.buffer, op.ref, Perform(op, Get(tx.snapshot + tx.buffer, op.ref)).value);
        OpsRun(r.value, t, ops[1..], end, refs);
      }
    }
  }

  /** The first attempt is left alone: its commit is granted, and other threads write elsewhere. */
  ghost predicate LeftAlone(w: World, template: Template, attempts: seq<Attempt>, refs: set<Ref>) {
    && w.Valid() && !template.ignoreThreadLocal && !template.readonly && Usable(w, template).None?
    && attempts != [] && attempts[0].granted && Agree(w.store + attempts[0].others, w.store, refs)
  }

  /** Such an attempt, with a body that comes to operations only, decides the run. */
  lemma FirstAttemptDecides(w: World, template: Template, attempts: seq<Attempt>, refs: set<Ref>, flat: Body)
    requires LeftAlone(w, template, attempts, refs) && JoinsAttempt(attempts[0])
    requires flat == InlinedAttempt(attempts[0]) && Loads(flat.actions) && WritesIn(flat.actions, refs)
    requires flat.end == Return("")
    ensures var (w', o) := RunTemplate(w, template, attempts);
            && AttemptsMade(w, template, attempts) == 1
            && o == if Alone(w.store, flat.actions).Some? then Returned("") else Threw(IllegalOperation)
  {
    var (t, w1, a) := (|w.txs|, Entered(w, template), attempts[0]);
    var w0 := Begin(w1, t, a.others);
    AttemptJoinsWhatItReaches(w0, t, a);
    AttemptFlattens(w0, t, a);
    assert w0.txs[t].snapshot + w0.txs[t].buffer == w.store;
    OpsRun(w0, t, flat.actions, flat.end, refs);
    var (w2, o) := RunBody(w0, t, a);
    FirstRoundDecides(w1, t, template, attempts, w2, o);
  }

  lemma FirstRoundDecides(w: World, t: nat, template: Template, attempts: seq<Attempt>, w': World, o: Outcome)
    requires w.Valid() && t < |w.txs| && w.Count(template) == 1 && attempts != []
    requires RunBody(Begin(w, t, attempts[0].others), t, attempts[0]) == (w', o)
    requires w'.IsActive(t) && CommitSucceeds(w', t, attempts[0].granted)
    requires o in {Returned(""), Threw(IllegalOperation)}
    ensures Loop(w, t, template, attempts, None).1 == o && Rounds(w, t, template, attempts, None) == 1
  {
    assert Wrap32(0) == 0 && MayTry(w, template);
    assert Round(w, t, attempts[0], None).1 == Some(o);
  }

  const NO_FAULTS := Faults(None, None, None)

  /** `success(key, msg)`, if its first attempt is left alone: it returns, with its three updates over what
      the other threads committed, if its containers are initialised, and throws otherwise. */
  lemma PlainSuccessReturns(w: World, template: Template, attempts: seq<Attempt>, c: Containers,
                            key: string, msg: string)
    requires |Refs(c)| == 3 && LeftAlone(w, template, attempts, Refs(c))
    requires forall a | a in attempts :: exists f :: a.body == SuccessBody(c, key, msg, f)
    requires attempts[0].body == SuccessBody(c, key, msg, NO_FAULTS)
    ensures var (w', o) := RunTemplate(w, template, attempts);
            var base := w.store + attempts[0].others;
            if IsInitialized(w.store, c) then
              o == Returned("") && Updated(base, w'.store, c, key, msg) && SameElsewhere(base, w'.store, Refs(c))
            else
              o == Threw(IllegalOperation) && w'.store == base
  {
    var ops := Updates(c, key, msg, NO_FAULTS);
    UpdatesInline(c, key, msg, NO_FAULTS, Return(""));
    var r := AloneUpdates(w.store, c, key, msg, NO_FAULTS, []);
    assert ops + [] == ops;
    FirstAttemptDecides(w, template, attempts, Refs(c), Body(ops, Return("")));
    var n := PlainSuccessIsAllOrNothing(w, template, attempts, c, key, msg);
    OneOther(w.store, attempts);
  }

  lemma OneOther(store: Store, attempts: seq<Attempt>)
    requires attempts != []
    ensures Others(store, attempts, 1) == store + attempts[0].others
  {
  }

  /** `success(key, msg, nested)`, likewise: all six updates if all containers are initialised. */
  lemma NestedSuccessReturns(w: World, template: Template, attempts: seq<Attempt>, call: NestedCall)
    requires Separate(call) && LeftAlone(w, template, attempts, Refs(call.c) + Refs(call.nested))
    requires forall a | a in attempts :: IsSuccess(a.body, call)
    requires attempts[0].body == SuccessNestedBody(call, NO_FAULTS, NO_FAULTS)
    ensures var (w', o) := RunTemplate(w, template, attempts);
            var base := w.store + attempts[0].others;
            if IsInitialized(w.store, call.c) && IsInitialized(w.store, call.nested) then
              o == Returned("") && UpdatedBoth(base, w'.store, call)
            else
              o == Threw(IllegalOperation) && w'.store == base
  {
    BothInline(call);
    BothLoad(call);
    NestedAttemptJoins(call, attempts[0]);
    BothAlone(w.store, call);
    FirstAttemptDecides(w, template, attempts, Refs(call.c) + Refs(call.nested), Body(BothUpdates(call), Return("")));
    var n := SuccessIsAllOrNothing(w, template, attempts, call);
    OneOther(w.store, attempts);
  }

  /** The operations of both objects in turn. */
  lemma BothInline(call: NestedCall)
    ensures Inlined(SuccessNestedBody(call, NO_FAULTS, NO_FAULTS).actions, Return(""))
            == Body(BothUpdates(call), Return(""))
  {
    var outer, inner := Updates(call.c, call.key, call.msg, NO_FAULTS),
      Updates(call.nested, call.key, call.msg, NO_FAULTS);
    var last := call.Inner(NO_FAULTS, Return(""));
    UpdatesInline(call.nested, call.key, call.msg, NO_FAULTS, Return(""));
    assert [last][1..] == [] && inner + [] == inner;
    assert Inlined([last], Return("")) == Body(inner, Return(""));
    OpsInline(outer, [last], Return(""));
  }

  lemma BothLoad(call: NestedCall)
    ensures Loads(BothUpdates(call)) && WritesIn(BothUpdates(call), Refs(call.c) + Refs(call.nested))
  {
  }

  function BothUpdates(call: NestedCall): seq<Action> {
    Updates(call.c, call.key, call.msg, NO_FAULTS) + Updates(call.nested, call.key, call.msg, NO_FAULTS)
  }

  lemma BothAlone(store: Store, call: NestedCall)
    requires Separate(call)
    ensures Alone(store, BothUpdates(call)).Some? <==> IsInitialized(store, call.c) && IsInitialized(store, call.nested)
  {
    var inner := Updates(call.nested, call.key, call.msg, NO_FAULTS);
    var r := AloneUpdates(store, call.c, call.key, call.msg, NO_FAULTS, inner);
    if r.Some? {
      var r' := AloneUpdates(r.value, call.nested, call.key, call.msg, NO_FAULTS, []);
      assert inner + [] == inner;
    }
  }
}
