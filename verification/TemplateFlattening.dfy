/** When a tree of templates runs as the one template that runs the inlined bodies. */
module TemplateFlattening {
  import opened JavaInt
  import opened Wrappers
  import opened Stm
  import opened TemplateSpec
  import opened Templates
  import opened TemplateProperties

  // ---------- calls that are reached ----------

  /** Every template call that the run of the body reaches finds t usable. */
  predicate ReachedJoin(w: World, t: nat, actions: seq<Action>, end: End)
    requires w.Valid() && t < |w.txs|
    decreases actions
  {
    actions != [] ==>
      match actions[0]
      case Do(op, fault) => var r := Operate(w, t, op, fault); r.Ok? ==> ReachedJoin(r.value, t, actions[1..], end)
      case AbortTx => ReachedJoin(Abort(w, t, BodyAborted(t)), t, actions[1..], end)
      case Call(template, attempts, _) =>
        && Usable(w, template) == Some(t) && attempts != [] && AttemptJoins(w, t, attempts[0])
        && var (w', o) := RunTemplate(w, template, attempts);
           o.Returned? ==> ReachedJoin(w', t, actions[1..], end)
  }

  predicate AttemptJoins(w: World, t: nat, a: Attempt)
    requires w.Valid() && t < |w.txs|
    decreases a
  {
    ReachedJoin(w, t, a.body.actions, a.body.end)
  }

  /** The same for all attempts of a loop. */
  predicate LoopJoins(w: World, t: nat, template: Template, attempts: seq<Attempt>, cause: Option<Exn>)
    requires w.Valid() && t < |w.txs|
    decreases attempts
  {
    MayTry(w, template) && attempts != [] ==>
      && AttemptJoins(Begin(w, t, attempts[0].others), t, attempts[0])
      && var (w', escapes, cause') := Round(w, t, attempts[0], cause);
         escapes.None? ==> LoopJoins(Counted(w', template), t, template, attempts[1..], cause')
  }

  predicate RunJoins(w: World, template: Template, attempts: seq<Attempt>)
    requires w.Valid()
  {
    match Usable(w, template)
    case Some(t) => attempts != [] ==> AttemptJoins(w, t, attempts[0])
    case None =>
      LoopJoins(Entered(w, template), |w.txs|, template, attempts, None)
  }

  /** The script says of every called template how its first attempt goes. */
  predicate Scripted(actions: seq<Action>)
    decreases actions
  {
    actions != [] ==>
      && (actions[0].Call? ==> actions[0].attempts != [] && ScriptedAttempt(actions[0].attempts[0]))
      && Scripted(actions[1..])
  }

  predicate ScriptedAttempt(a: Attempt)
    decreases a
  {
    Scripted(a.body.actions)
  }

  lemma {:induction false} InlinedIsFlat(actions: seq<Action>, end: End)
    ensures Flat(Inlined(actions, end).actions)
    decreases actions
  {
    if actions != [] {
      InlinedIsFlat(actions[1..], end);
      if actions[0].Call? && actions[0].attempts != [] {
        InlinedAttemptIsFlat(actions[0].attempts[0]);
      }
    }
  }

  lemma {:induction false} InlinedAttemptIsFlat(a: Attempt)
    ensures Flat(InlinedAttempt(a).actions)
    decreases a
  {
    InlinedIsFlat(a.body.actions, a.body.end);
  }

  // ---------- joining is enough ----------

  lemma {:induction false} RunsInSequence(w: World, t: nat, first: seq<Action>, v: string, second: seq<Action>,
                                          end: End)
    requires w.Valid() && t < |w.txs|
    ensures var (w', o) := RunActions(w, t, first, Return(v));
            RunActions(w, t, first + second, end) == if o.Returned? then RunActions(w', t, second, end) else (w', o)
    decreases first
  {
    if first == [] {
      assert first + second == second;
    } else {
      assert (first + second)[0] == first[0] && (first + second)[1..] == first[1..] + second;
      match first[0] {
        case Do(op, fault) =>
          var r := Operate(w, t, op, fault);
          if r.Ok? {
            RunsInSequence(r.value, t, first[1..], v, second, end);
          }
        case AbortTx =>
          RunsInSequence(Abort(w, t, BodyAborted(t)), t, first[1..], v, second, end);
        case Call(template, attempts, _) =>
          var (w', o) := RunTemplate(w, template, attempts);
          if o.Returned? {
            RunsInSequence(w', t, first[1..], v, second, end);
          }
      }
    }
  }

  /** Without template calls a body only throws unchecked exceptions on its way to the end. */
  lemma {:induction false} EndIsReplaceable(w: World, t: nat, actions: seq<Action>, end: End, end': End)
    requires w.Valid() && t < |w.txs| && Flat(actions)
    ensures var ((w', o), (w'', o')) := (RunActions(w, t, actions, end), RunActions(w, t, actions, end'));
            && w' == w''
            && ((o == AtEnd(end) && o' == AtEnd(end')) || (o == o' && o.Threw? && !o.ex.Checked?))
    decreases actions
  {
    if actions != [] {
      assert actions[0] in actions;
      match actions[0] {
        case Do(op, fault) =>
          var r := Operate(w, t, op, fault);
          if r.Ok? {
            EndIsReplaceable(r.value, t, actions[1..], end, end');
          }
        case AbortTx =>
          EndIsReplaceable(Abort(w, t, BodyAborted(t)), t, actions[1..], end, end');
      }
    }
  }

  lemma {:induction false} BodyFlattens(w: World, t: nat, actions: seq<Action>, end: End)
    requires w.Valid() && t < |w.txs| && ReachedJoin(w, t, actions, end)
    ensures var flat := Inlined(actions, end);
            RunActions(w, t, actions, end) == RunActions(w, t, flat.actions, flat.end)
    decreases actions, 1
  {
    if actions != [] {
      match actions[0] {
        case Do(op, fault) =>
          var r := Operate(w, t, op, fault);
          if r.Ok? {
            BodyFlattens(r.value, t, actions[1..], end);
          }
        case AbortTx =>
          BodyFlattens(Abort(w, t, BodyAborted(t)), t, actions[1..], end);
        case Call(template, attempts, viaExecute) =>
          CallFlattens(w, t, actions, end);
      }
    }
  }

  lemma {:induction false} CallFlattens(w: World, t: nat, actions: seq<Action>, end: End)
    requires actions != [] && actions[0].Call?
    requires w.Valid() && t < |w.txs| && ReachedJoin(w, t, actions, end)
    ensures var flat := Inlined(actions, end);
            RunActions(w, t, actions, end) == RunActions(w, t, flat.actions, flat.end)
    decreases actions, 0
  {
    var Call(template, attempts, viaExecute) := actions[0];
    var a := attempts[0];
    var inner := InlinedAttempt(a);
    AttemptFlattens(w, t, a);
    InlinedAttemptIsFlat(a);
    var (w', o) := RunTemplate(w, template, attempts);
    assert (w', o) == RunActions(w, t, inner.actions, inner.end);
    match inner.end {
      case Throw(ex) =>
        EndIsReplaceable(w, t, inner.actions, inner.end, Throw(if viaExecute then WrapChecked(ex) else ex));
      case Return(v) =>
        var rest := Inlined(actions[1..], end);
        EndIsReplaceable(w, t, inner.actions, inner.end, inner.end);
        RunsInSequence(w, t, inner.actions, v, rest.actions, rest.end);
        if o.Returned? {
          BodyFlattens(w', t, actions[1..], end);
        }
    }
  }

  lemma {:induction false} AttemptFlattens(w: World, t: nat, a: Attempt)
    requires w.Valid() && t < |w.txs| && AttemptJoins(w, t, a)
    ensures RunBody(w, t, a) == RunActions(w, t, InlinedAttempt(a).actions, InlinedAttempt(a).end)
    decreases a
  {
    BodyFlattens(w, t, a.body.actions, a.body.end);
  }

  function InlinedScript(attempts: seq<Attempt>): seq<Attempt> {
    if attempts == [] then []
    else [attempts[0].(body := InlinedAttempt(attempts[0]))] + InlinedScript(attempts[1..])
  }

  lemma {:induction false} LoopFlattens(w: World, t: nat, template: Template, attempts: seq<Attempt>,
                                          cause: Option<Exn>)
    requires w.Valid() && t < |w.txs| && LoopJoins(w, t, template, attempts, cause)
    ensures Loop(w, t, template, attempts, cause) == Loop(w, t, template, InlinedScript(attempts), cause)
    ensures Rounds(w, t, template, attempts, cause) == Rounds(w, t, template, InlinedScript(attempts), cause)
    decreases attempts
  {
    if attempts != [] && MayTry(w, template) {
      var a := attempts[0];
      var flat := InlinedScript(attempts);
      assert flat[0].body == InlinedAttempt(a) && flat[1..] == InlinedScript(attempts[1..]);
      AttemptFlattens(Begin(w, t, a.others), t, a);
      var (w', escapes, cause') := Round(w, t, a, cause);
      assert Round(w, t, flat[0], cause) == (w', escapes, cause');
      if escapes.None? {
        LoopFlattens(Counted(w', template), t, template, attempts[1..], cause');
      }
    }
  }

  // ---------- and nothing less ----------

  /** A joining body starts no transaction and leaves the slot alone. */
  lemma JoinedStaysInside(w: World, t: nat, a: Attempt)
    requires w.Valid() && t < |w.txs| && AttemptJoins(w, t, a)
    ensures var (w', o) := RunBody(w, t, a); |w'.txs| == |w.txs| && w'.slot == w.slot && !o.Running?
  {
    AttemptFlattens(w, t, a);
    InlinedAttemptIsFlat(a);
    FlatBody(w, t, InlinedAttempt(a).actions, InlinedAttempt(a).end);
  }

  /** A call that does not join starts a transaction, and that is seen in the end. */
  lemma {:induction false} StrayCallShows(w: World, t: nat, actions: seq<Action>, end: End)
    requires w.Valid() && w.slot == Some(t) && Scripted(actions) && !ReachedJoin(w, t, actions, end)
    ensures |RunActions(w, t, actions, end).0.txs| > |w.txs|
    decreases actions
  {
    match actions[0] {
      case Do(op, fault) =>
        StrayCallShows(Operate(w, t, op, fault).value, t, actions[1..], end);
      case AbortTx =>
        StrayCallShows(Abort(w, t, BodyAborted(t)), t, actions[1..], end);
      case Call(template, attempts, _) =>
        if Usable(w, template) == Some(t) {
          if AttemptJoins(w, t, attempts[0]) {
            JoinedStaysInside(w, t, attempts[0]);
            StrayCallShows(RunTemplate(w, template, attempts).0, t, actions[1..], end);
          } else {
            StrayAttemptShows(w, t, attempts[0]);
          }
        }
    }
  }

  lemma {:induction false} StrayAttemptShows(w: World, t: nat, a: Attempt)
    requires w.Valid() && w.slot == Some(t) && ScriptedAttempt(a) && !AttemptJoins(w, t, a)
    ensures |RunBody(w, t, a).0.txs| > |w.txs|
    decreases a
  {
    StrayCallShows(w, t, a.body.actions, a.body.end);
  }

  lemma {:induction false} StrayLoopShows(w: World, t: nat, template: Template, attempts: seq<Attempt>,
                                          cause: Option<Exn>)
    requires w.Valid() && w.slot == Some(t) && forall a | a in attempts :: ScriptedAttempt(a)
    requires !LoopJoins(w, t, template, attempts, cause)
    ensures |Loop(w, t, template, attempts, cause).0.txs| > |w.txs|
    decreases attempts
  {
    var a := attempts[0];
    var w0 := Begin(w, t, a.others);
    var (w', escapes, cause') := Round(w, t, a, cause);
    if AttemptJoins(w0, t, a) {
      JoinedStaysInside(w0, t, a);
      StrayLoopShows(Counted(w', template), t, template, attempts[1..], cause');
    } else {
      StrayAttemptShows(w0, t, a);
    }
  }

  lemma {:induction false} InlinedScriptIsFlat(attempts: seq<Attempt>)
    ensures forall a | a in InlinedScript(attempts) :: Flat(a.body.actions)
    decreases attempts
  {
    if attempts != [] {
      InlinedAttemptIsFlat(attempts[0]);
      InlinedScriptIsFlat(attempts[1..]);
    }
  }

  /** Flattening: a tree of templates leaves the same world and the same outcome, escaping exception
      included, as the one template that runs the inlined bodies, exactly when every call that is
      reached finds the transaction usable. */
  lemma FlattensExactly(w: World, template: Template, attempts: seq<Attempt>)
    requires w.Valid() && !template.ignoreThreadLocal && forall a | a in attempts :: ScriptedAttempt(a)
    ensures RunTemplate(w, template, attempts) == RunTemplate(w, template, InlinedScript(attempts))
       <==> RunJoins(w, template, attempts)
  {
    InlinedScriptIsFlat(attempts);
    match Usable(w, template)
    case Some(t) =>
      if attempts != [] {
        JoinedFlattensExactly(w, t, attempts[0]);
      }
    case None =>
      OwnedFlattensExactly(Entered(w, template), |w.txs|, template, attempts);
  }

  lemma JoinedFlattensExactly(w: World, t: nat, a: Attempt)
    requires w.Valid() && w.slot == Some(t) && ScriptedAttempt(a)
    ensures RunBody(w, t, a) == RunBody(w, t, a.(body := InlinedAttempt(a))) <==> AttemptJoins(w, t, a)
  {
    if AttemptJoins(w, t, a) {
      AttemptFlattens(w, t, a);
    } else {
      StrayAttemptShows(w, t, a);
      InlinedAttemptIsFlat(a);
      FlatBody(w, t, InlinedAttempt(a).actions, InlinedAttempt(a).end);
    }
  }

  lemma OwnedFlattensExactly(w: World, t: nat, template: Template, attempts: seq<Attempt>)
    requires w.Valid() && w.slot == Some(t) && forall a | a in attempts :: ScriptedAttempt(a)
    ensures Loop(w, t, template, attempts, None) == Loop(w, t, template, InlinedScript(attempts), None)
       <==> LoopJoins(w, t, template, attempts, None)
    ensures LoopJoins(w, t, template, attempts, None) || |Loop(w, t, template, attempts, None).0.txs| > |w.txs|
    ensures |Loop(w, t, template, InlinedScript(attempts), None).0.txs| == |w.txs|
  {
    InlinedScriptIsFlat(attempts);
    FlatLoop(w, t, template, InlinedScript(attempts), None);
    if LoopJoins(w, t, template, attempts, None) {
      LoopFlattens(w, t, template, attempts, None);
    } else {
      StrayLoopShows(w, t, template, attempts, None);
    }
  }

  // ---------- a check on the bodies alone ----------

  lemma {:induction false} JoinsWhatItReaches(w: World, t: nat, actions: seq<Action>, end: End, live: bool)
    requires Current(w, t, live) && Joins(actions, live)
    ensures ReachedJoin(w, t, actions, end)
    decreases actions
  {
    if actions != [] {
      match actions[0] {
        case Do(op, fault) =>
          var r := Operate(w, t, op, fault);
          if r.Ok? {
            JoinsWhatItReaches(r.value, t, actions[1..], end, live);
          }
        case AbortTx =>
          JoinsWhatItReaches(Abort(w, t, BodyAborted(t)), t, actions[1..], end, false);
        case Call(template, attempts, _) =>
          AttemptJoinsWhatItReaches(w, t, attempts[0]);
          JoiningAttempt(w, t, attempts[0], true);
          var (w', o) := RunTemplate(w, template, attempts);
          if o.Returned? {
            JoinsWhatItReaches(w', t, actions[1..], end, AbortTx !in InlinedAttempt(attempts[0]).actions);
          }
      }
    }
  }

  lemma {:induction false} AttemptJoinsWhatItReaches(w: World, t: nat, a: Attempt)
    requires Current(w, t, true) && JoinsAttempt(a)
    ensures AttemptJoins(w, t, a)
    decreases a
  {
    JoinsWhatItReaches(w, t, a.body.actions, a.body.end, true);
  }

  lemma {:induction false} LoopJoinsWhatItReaches(w: World, t: nat, template: Template, attempts: seq<Attempt>,
                                          cause: Option<Exn>)
    requires Current(w, t, true) && forall a | a in attempts :: JoinsAttempt(a)
    ensures LoopJoins(w, t, template, attempts, cause)
    decreases attempts
  {
    if attempts != [] {
      var a := attempts[0];
      AttemptJoinsWhatItReaches(Begin(w, t, a.others), t, a);
      JoiningAttempt(Begin(w, t, a.others), t, a, true);
      var (w', escapes, cause') := Round(w, t, a, cause);
      if escapes.None? {
        LoopJoinsWhatItReaches(Counted(w', template), t, template, attempts[1..], cause');
      }
    }
  }

  /** In particular if no body calls a template after aborting, and none ignores the slot. */
  lemma TreeRunsAsOneTemplate(w: World, template: Template, attempts: seq<Attempt>)
    requires w.Valid() && !template.ignoreThreadLocal
    requires forall a | a in attempts :: JoinsAttempt(a)
    ensures RunJoins(w, template, attempts)
    ensures RunTemplate(w, template, attempts) == RunTemplate(w, template, InlinedScript(attempts))
  {
    match Usable(w, template)
    case Some(t) =>
      if attempts != [] {
        AttemptJoinsWhatItReaches(w, t, attempts[0]);
        AttemptFlattens(w, t, attempts[0]);
      }
    case None =>
      var t := |w.txs|;
      var own := Entered(w, template);
      LoopJoinsWhatItReaches(own, t, template, attempts, None);
      LoopFlattens(own, t, template, attempts, None);
  }
}
