/** Whole-run properties of the retry template, for every script of the adversary. */
module TemplateProperties {
  import opened JavaInt
  import opened Wrappers
  import opened Stm
  import opened TemplateSpec
  import opened Templates

  // ---------- bodies whose templates all join ----------

  /** The body with every template call replaced by the body that it runs. */
  function Inlined(actions: seq<Action>, end: End): (b: Body)
    ensures b.end.Return? ==> b.end == end
    decreases actions
  {
    if actions == [] then Body([], end)
    else
      match actions[0]
      case Call(_, attempts, viaExecute) =>
        if attempts == [] then Body([], end)
        else
          var inner := InlinedAttempt(attempts[0]);
          (match inner.end
           case Throw(ex) => Body(inner.actions, Throw(if viaExecute then WrapChecked(ex) else ex))
           case Return(_) =>
             var rest := Inlined(actions[1..], end);
             Body(inner.actions + rest.actions, rest.end))
      case _ =>
        var rest := Inlined(actions[1..], end);
        Body([actions[0]] + rest.actions, rest.end)
  }

  function InlinedAttempt(a: Attempt): (b: Body)
    ensures b.end.Return? ==> b.end == a.body.end
    decreases a
  {
    Inlined(a.body.actions, a.body.end)
  }

  /** How a template call ends inside a body: `execute` shows no checked exception but one around it, and
      `executeChecked` shows what there was; only a result lets the body go on. */
  lemma CallEnds(w: World, t: nat, actions: seq<Action>, end: End)
    requires w.Valid() && t < |w.txs| && actions != [] && actions[0].Call?
    ensures var (w', o) := RunTemplate(w, actions[0].template, actions[0].attempts);
            var (w'', o') := RunActions(w, t, actions, end);
            if o.Returned? then (w'', o') == RunActions(w', t, actions[1..], end)
            else w'' == w' && if actions[0].viaExecute then HidesChecked(o, o') else o' == o
  {
  }

  /** Every called template respects the thread-local slot, and none is called once the body has
      aborted its transaction itself. */
  predicate Joins(actions: seq<Action>, live: bool)
    decreases actions
  {
    actions != [] ==>
      match actions[0]
      case Do(_, _) => Joins(actions[1..], live)
      case AbortTx => Joins(actions[1..], false)
      case Call(template, attempts, _) =>
        && live && !template.ignoreThreadLocal && attempts != []
        && JoinsAttempt(attempts[0])
        && Joins(actions[1..], AbortTx !in InlinedAttempt(attempts[0]).actions)
  }

  predicate JoinsAttempt(a: Attempt)
    decreases a
  {
    Joins(a.body.actions, true)
  }

  /** t is the transaction in the slot; it is live until the body aborts it. */
  ghost predicate Current(w: World, t: nat, live: bool) {
    w.Valid() && w.slot == Some(t) && w.txs[t].status == if live then Active else Aborted
  }

  /** All that a joining body can change: the buffer and status of t, and the log by its own aborts. */
  ghost predicate OnlyBody(w: World, w': World, t: nat)
    requires t < |w.txs|
  {
    && w'.store == w.store && w'.slot == w.slot && |w'.txs| == |w.txs| && w'.counts == w.counts
    && (forall i | 0 <= i < |w.txs| && i != t :: w'.txs[i] == w.txs[i])
    && w'.txs[t].snapshot == w.txs[t].snapshot && w'.txs[t].readonly == w.txs[t].readonly
    && w.log <= w'.log
    && (forall i | |w.log| <= i < |w'.log| :: w'.log[i] == BodyAborted(t))
  }

  /** A template finds a transaction to join exactly when it does not ignore the slot and the slot
      holds an active transaction; otherwise it starts one more. */
  lemma JoinsExactlyWhenActive(w: World, template: Template, attempts: seq<Attempt>)
    requires w.Valid()
    requires attempts != [] && JoinsAttempt(attempts[0])
    ensures !template.ignoreThreadLocal && w.slot.Some? && w.IsActive(w.slot.value)
       <==> |RunTemplate(w, template, attempts).0.txs| == |w.txs|
  {
    if Usable(w, template).Some? {
      JoiningBody(w, w.slot.value, attempts[0].body.actions, attempts[0].body.end, true);
    }
  }

  lemma {:induction false} JoiningBody(w: World, t: nat, actions: seq<Action>, end: End, live: bool)
    requires Current(w, t, live) && Joins(actions, live)
    ensures var (w', o) := RunActions(w, t, actions, end);
            && !o.Running? && OnlyBody(w, w', t)
            && (w'.IsActive(t) ==> live && w'.log == w.log && w.txs[t].buffer.Keys <= w'.txs[t].buffer.Keys)
            && (o.Returned? ==> Current(w', t, live && AbortTx !in Inlined(actions, end).actions))
            && (o.Returned? ==> Inlined(actions, end).end == Return(o.result))
            && w'.txs[t].status != Committed
    decreases actions, 1
  {
    if actions != [] {
      match actions[0] {
        case Do(op, fault) =>
          var r := Operate(w, t, op, fault);
          if r.Ok? {
            JoiningBody(r.value, t, actions[1..], end, live);
          }
        case AbortTx =>
          JoiningBody(Abort(w, t, BodyAborted(t)), t, actions[1..], end, false);
        case Call(_, _, _) =>
          JoiningCall(w, t, actions, end);
      }
    }
  }

  lemma {:induction false} JoiningCall(w: World, t: nat, actions: seq<Action>, end: End)
    requires Current(w, t, true) && Joins(actions, true) && actions != [] && actions[0].Call?
    ensures var (w', o) := RunActions(w, t, actions, end);
            && !o.Running? && OnlyBody(w, w', t)
            && (w'.IsActive(t) ==> w'.log == w.log && w.txs[t].buffer.Keys <= w'.txs[t].buffer.Keys)
            && (o.Returned? ==> Current(w', t, AbortTx !in Inlined(actions, end).actions))
            && (o.Returned? ==> Inlined(actions, end).end == Return(o.result))
            && w'.txs[t].status != Committed
    decreases actions, 0
  {
    var Call(template, attempts, viaExecute) := actions[0];
    JoiningAttempt(w, t, attempts[0], true);
    var (w1, o) := RunTemplate(w, template, attempts);
    assert (w1, o) == RunBody(w, t, attempts[0]);
    if o.Returned? {
      JoiningBody(w1, t, actions[1..], end, AbortTx !in InlinedAttempt(attempts[0]).actions);
    }
  }

  lemma {:induction false} JoiningAttempt(w: World, t: nat, a: Attempt, live: bool)
    requires Current(w, t, live) && live && JoinsAttempt(a)
    ensures var (w', o) := RunBody(w, t, a);
            && !o.Running? && OnlyBody(w, w', t)
            && (w'.IsActive(t) ==> live && w'.log == w.log && w.txs[t].buffer.Keys <= w'.txs[t].buffer.Keys)
            && (o.Returned? ==> Current(w', t, live && AbortTx !in InlinedAttempt(a).actions))
            && (o.Returned? ==> InlinedAttempt(a).end == Return(o.result))
            && w'.txs[t].status != Committed
    decreases a
  {
    JoiningBody(w, t, a.body.actions, a.body.end, live);
  }

  // ---------- bodies without template calls ----------

  predicate Flat(actions: seq<Action>) {
    forall a | a in actions :: !a.Call?
  }

  lemma {:induction false} FlatBody(w: World, t: nat, actions: seq<Action>, end: End)
    requires w.Valid() && t < |w.txs| && Flat(actions)
    ensures var (w', o) := RunActions(w, t, actions, end);
            |w'.txs| == |w.txs| && w'.slot == w.slot && !o.Running?
    decreases actions
  {
    if actions != [] {
      assert actions[0] in actions;
      match actions[0] {
        case Do(op, fault) =>
          var r := Operate(w, t, op, fault);
          if r.Ok? {
            FlatBody(r.value, t, actions[1..], end);
          }
        case AbortTx =>
          FlatBody(Abort(w, t, BodyAborted(t)), t, actions[1..], end);
      }
    }
  }

  lemma FlatRound(w: World, t: nat, a: Attempt, cause: Option<Exn>)
    requires w.Valid() && t < |w.txs| && Flat(a.body.actions)
    ensures |Round(w, t, a, cause).0.txs| == |w.txs|
  {
    FlatBody(Begin(w, t, a.others), t, a.body.actions, a.body.end);
  }

  /** A loop over such bodies starts no transaction. */
  lemma {:induction false} FlatLoop(w: World, t: nat, template: Template, attempts: seq<Attempt>, cause: Option<Exn>)
    requires w.Valid() && t < |w.txs| && forall a | a in attempts :: Flat(a.body.actions)
    ensures |Loop(w, t, template, attempts, cause).0.txs| == |w.txs|
    decreases attempts
  {
    if attempts != [] {
      assert attempts[0] in attempts;
      FlatRound(w, t, attempts[0], cause);
      var (w', escapes, cause') := Round(w, t, attempts[0], cause);
      if escapes.None? {
        FlatLoop(Counted(w', template), t, template, attempts[1..], cause');
      }
    }
  }

  // ---------- templates that ignore the slot ----------

  /** Every called template ignores the slot, at any depth. */
  predicate Ignores(actions: seq<Action>)
    decreases actions
  {
    actions != [] ==>
      && (actions[0].Call? ==> actions[0].template.ignoreThreadLocal && IgnoresAll(actions[0].attempts))
      && Ignores(actions[1..])
  }

  predicate IgnoresAll(attempts: seq<Attempt>)
    decreases attempts
  {
    attempts != [] ==> AttemptIgnores(attempts[0]) && IgnoresAll(attempts[1..])
  }

  predicate AttemptIgnores(a: Attempt)
    decreases a
  {
    Ignores(a.body.actions)
  }

  predicate IsSlotOf(slot: Option<nat>, w: World) {
    slot.Some? ==> slot.value < |w.txs|
  }

  lemma {:induction false} BodyIgnoresSlot(w: World, slot: Option<nat>, t: nat, actions: seq<Action>, end: End)
    requires w.Valid() && t < |w.txs| && Ignores(actions) && IsSlotOf(slot, w)
    ensures var (w', o) := RunActions(w, t, actions, end);
            RunActions(w.(slot := slot), t, actions, end) == (w'.(slot := slot), o) && w'.slot == w.slot
    decreases actions
  {
    if actions != [] {
      match actions[0] {
        case Do(op, fault) =>
          OperateIgnoresSlot(w, slot, t, op, fault);
          var r := Operate(w, t, op, fault);
          if r.Ok? {
            BodyIgnoresSlot(r.value, slot, t, actions[1..], end);
          }
        case AbortTx =>
          AbortIgnoresSlot(w, slot, t, BodyAborted(t));
          BodyIgnoresSlot(Abort(w, t, BodyAborted(t)), slot, t, actions[1..], end);
        case Call(called, attempts, _) =>
          RunIgnoresSlot(w, slot, called, attempts);
          var (w1, o) := RunTemplate(w, called, attempts);
          if o.Returned? {
            BodyIgnoresSlot(w1, slot, t, actions[1..], end);
          }
      }
    }
  }

  lemma OperateIgnoresSlot(w: World, slot: Option<nat>, t: nat, op: Op, fault: Option<nat>)
    requires t < |w.txs|
    ensures Operate(w.(slot := slot), t, op, fault)
         == match Operate(w, t, op, fault) case Ok(w') => Ok(w'.(slot := slot)) case Err(ex) => Err(ex)
    ensures match Operate(w, t, op, fault) case Ok(w') => w'.slot == w.slot case Err(_) => true
  {
  }

  lemma AbortIgnoresSlot(w: World, slot: Option<nat>, t: nat, event: Event)
    requires t < |w.txs|
    ensures Abort(w.(slot := slot), t, event) == Abort(w, t, event).(slot := slot) && Abort(w, t, event).slot == w.slot
  {
  }

  lemma FinishIgnoresSlot(w: World, slot: Option<nat>, t: nat, o: Outcome, granted: bool, cause: Option<Exn>)
    requires t < |w.txs| && !o.Running?
    ensures var (w', escapes, cause') := Finish(w, t, o, granted, cause);
            Finish(w.(slot := slot), t, o, granted, cause) == (w'.(slot := slot), escapes, cause')
  {
  }

  lemma {:induction false} RoundIgnoresSlot(w: World, slot: Option<nat>, t: nat, a: Attempt, cause: Option<Exn>)
    requires w.Valid() && t < |w.txs| && AttemptIgnores(a) && IsSlotOf(slot, w)
    ensures var (w', escapes, cause') := Round(w, t, a, cause);
            && Round(w.(slot := slot), t, a, cause) == (w'.(slot := slot), escapes, cause')
            && w'.slot == w.slot
    decreases a
  {
    var w0 := Begin(w, t, a.others);
    BodyIgnoresSlot(w0, slot, t, a.body.actions, a.body.end);
    assert Begin(w.(slot := slot), t, a.others) == w0.(slot := slot);
    var (w1, o) := RunBody(w0, t, a);
    if !o.Running? {
      FinishIgnoresSlot(w1, slot, t, o, a.granted, cause);
    }
  }

  lemma CountingIgnoresSlot(w: World, slot: Option<nat>, template: Template)
    ensures Counted(w.(slot := slot), template.(ignoreThreadLocal := true)) == Counted(w, template).(slot := slot)
  {
  }

  lemma {:induction false} LoopIgnoresSlot(w: World, slot: Option<nat>, t: nat, template: Template,
                                           attempts: seq<Attempt>, cause: Option<Exn>)
    requires w.Valid() && t < |w.txs| && IsSlotOf(slot, w) && IgnoresAll(attempts)
    ensures var (w', o) := Loop(w, t, template, attempts, cause);
            && Loop(w.(slot := slot), t, template.(ignoreThreadLocal := true), attempts, cause)
              == (w'.(slot := slot), o)
            && w'.slot == w.slot
    decreases attempts, 0
  {
    if attempts != [] {
      RoundIgnoresSlot(w, slot, t, attempts[0], cause);
      var (w', escapes, cause') := Round(w, t, attempts[0], cause);
      CountingIgnoresSlot(w', slot, template);
      if escapes.None? {
        LoopIgnoresSlot(Counted(w', template), slot, t, template, attempts[1..], cause');
      }
    }
  }

  lemma {:induction false} RunIgnoresSlot(w: World, slot: Option<nat>, template: Template, attempts: seq<Attempt>)
    requires w.Valid() && template.ignoreThreadLocal && IgnoresAll(attempts) && IsSlotOf(slot, w)
    ensures var (w', o) := RunTemplate(w, template, attempts);
            RunTemplate(w.(slot := slot), template, attempts) == (w'.(slot := slot), o) && w'.slot == w.slot
    decreases attempts, 1
  {
    var own := Entered(w, template);
    assert own.(slot := slot) == Entered(w.(slot := slot), template);
    LoopIgnoresSlot(own, slot, |w.txs|, template, attempts, None);
  }

  /** A template that ignores the slot, and whose called templates do, runs as a template that finds the
      slot empty does, and leaves the slot as it was. */
  lemma IgnoringRun(w: World, template: Template, attempts: seq<Attempt>)
    requires w.Valid() && !template.ignoreThreadLocal && IgnoresAll(attempts)
    ensures var (w', o) := RunTemplate(w.(slot := None), template, attempts);
            RunTemplate(w, template.(ignoreThreadLocal := true), attempts) == (w'.(slot := w.slot), o)
  {
    var own := Entered(w.(slot := None), template);
    LoopIgnoresSlot(own, w.slot, |w.txs|, template, attempts, None);
    assert own.(slot := w.slot) == Entered(w, template.(ignoreThreadLocal := true));
  }

  /** A body that hands one write to another template. */
  function Delegating(called: Template, ref: Ref, value: Value): Attempt {
    var inner := Attempt(map[], Body([Do(Swap(ref, value), None)], Return("")), true);
    Attempt(map[], Body([Call(called, [inner], true)], Return("")), true)
  }

  /** It takes that condition: a called template that respects the slot joins the transaction found
      there, so the write ends up in that one and not in the transaction of the run. */
  lemma CalledJoinsOutside(w: World, s: nat, template: Template, called: Template, ref: Ref, value: Value)
    requires w.Valid() && w.slot == Some(s) && w.IsActive(s) && !w.txs[s].readonly
    requires template.ignoreThreadLocal && !called.ignoreThreadLocal
    ensures var (w1, o) := RunBody(Begin(Entered(w, template), |w.txs|, map[]), |w.txs|,
                                  Delegating(called, ref, value));
            && o == Returned("") && w1.txs[|w.txs|].buffer == map[]
            && w1.txs[s].buffer == w.txs[s].buffer[ref := value]
  {
    var (t, w0) := (|w.txs|, Begin(Entered(w, template), |w.txs|, map[]));
    var a := Delegating(called, ref, value);
    var call := a.body.actions[0];
    var inner := call.attempts[0].body;
    var w1 := Operate(w0, s, inner.actions[0].op, None).value;
    assert inner.actions[1..] == [] && a.body.actions[1..] == [];
    assert RunActions(w1, s, [], inner.end) == (w1, Returned(""));
    assert Usable(w0, called) == Some(s);
    assert RunBody(w0, s, call.attempts[0]) == (w1, Returned(""));
    assert RunTemplate(w0, called, call.attempts) == (w1, Returned(""));
    assert RunActions(w1, t, [], a.body.end) == (w1, Returned(""));
  }
}
