/** A read-only template writes nothing: `startTransaction` and what follows from it. */
module TemplateReadonly {
  import opened JavaInt
  import opened Wrappers
  import opened Stm
  import opened TemplateSpec
  import opened Templates
  import opened TemplateProperties
  import opened TemplateFlattening
  import opened TemplateAtomicity
  import opened TemplateReach

  /** Since the log had length base, the read-only transaction u has committed nothing, and it holds
      nothing to commit. */
  ghost predicate Blank(w: World, u: nat, base: nat) {
    && u < |w.txs| && w.txs[u].readonly && w.txs[u].buffer == map[] && base <= |w.log|
    && forall i | base <= i < |w.log| && w.log[i].CommittedTx? && w.log[i].t == u :: w.log[i].buffer == map[]
  }

  lemma OperationStaysBlank(w: World, t: nat, op: Op, fault: Option<nat>, u: nat, base: nat)
    requires t < |w.txs| && Blank(w, u, base)
    ensures var r := Operate(w, t, op, fault); r.Ok? ==> t != u && Blank(r.value, u, base)
  {
  }

  lemma AbortStaysBlank(w: World, t: nat, u: nat, base: nat)
    requires t < |w.txs| && Blank(w, u, base)
    ensures Blank(Abort(w, t, BodyAborted(t)), u, base)
  {
  }

  lemma FinishStaysBlank(w: World, t: nat, o: Outcome, granted: bool, cause: Option<Exn>, u: nat, base: nat)
    requires t < |w.txs| && !o.Running? && Blank(w, u, base)
    ensures Blank(Finish(w, t, o, granted, cause).0, u, base)
  {
    FinishLog(w, t, o, granted, cause);
    var (w', events) := (Finish(w, t, o, granted, cause).0, FinishEvents(w, t, o, granted));
    assert events[0].CommittedTx? ==> events == [CommittedTx(t, w.txs[t].buffer)];
    assert w'.txs[u].readonly && w'.txs[u].buffer == map[];
  }

  lemma {:induction false} BodyStaysBlank(w: World, t: nat, actions: seq<Action>, end: End, u: nat, base: nat)
    requires w.Valid() && t < |w.txs| && Blank(w, u, base)
    ensures Blank(RunActions(w, t, actions, end).0, u, base)
    decreases actions
  {
    if actions != [] {
      match actions[0] {
        case Do(op, fault) =>
          OperationStaysBlank(w, t, op, fault, u, base);
          var r := Operate(w, t, op, fault);
          if r.Ok? {
            BodyStaysBlank(r.value, t, actions[1..], end, u, base);
          }
        case AbortTx =>
          AbortStaysBlank(w, t, u, base);
          BodyStaysBlank(Abort(w, t, BodyAborted(t)), t, actions[1..], end, u, base);
        case Call(called, attempts, _) =>
          RunStaysBlank(w, called, attempts, u, base);
          var (w1, o) := RunTemplate(w, called, attempts);
          if o.Returned? {
            BodyStaysBlank(w1, t, actions[1..], end, u, base);
          }
      }
    }
  }

  lemma {:induction false} AttemptStaysBlank(w: World, t: nat, a: Attempt, u: nat, base: nat)
    requires w.Valid() && t < |w.txs| && Blank(w, u, base)
    ensures Blank(RunBody(w, t, a).0, u, base)
    decreases a, 0
  {
    BodyStaysBlank(w, t, a.body.actions, a.body.end, u, base);
  }

  lemma {:induction false} RoundStaysBlank(w: World, t: nat, a: Attempt, cause: Option<Exn>, u: nat, base: nat)
    requires w.Valid() && t < |w.txs| && Blank(w, u, base)
    ensures Blank(Round(w, t, a, cause).0, u, base)
    decreases a, 1
  {
    var w0 := Begin(w, t, a.others);
    AttemptStaysBlank(w0, t, a, u, base);
    var (w1, o) := RunBody(w0, t, a);
    if !o.Running? {
      FinishStaysBlank(w1, t, o, a.granted, cause, u, base);
    }
  }

  lemma {:induction false} LoopStaysBlank(w: World, t: nat, template: Template, attempts: seq<Attempt>,
                                          cause: Option<Exn>, u: nat, base: nat)
    requires w.Valid() && t < |w.txs| && Blank(w, u, base)
    ensures Blank(Loop(w, t, template, attempts, cause).0, u, base)
    decreases attempts, 0
  {
    if MayTry(w, template) && attempts != [] {
      RoundStaysBlank(w, t, attempts[0], cause, u, base);
      var (w', escapes, cause') := Round(w, t, attempts[0], cause);
      if escapes.None? {
        LoopStaysBlank(Counted(w', template), t, template, attempts[1..], cause', u, base);
      }
    }
  }

  lemma {:induction false} RunStaysBlank(w: World, template: Template, attempts: seq<Attempt>, u: nat, base: nat)
    requires w.Valid() && Blank(w, u, base)
    ensures Blank(RunTemplate(w, template, attempts).0, u, base)
    decreases attempts, 1
  {
    match Usable(w, template)
    case Some(t) =>
      if attempts != [] {
        AttemptStaysBlank(w, t, attempts[0], u, base);
      }
    case None => LoopStaysBlank(Entered(w, template), |w.txs|, template, attempts, None, u, base);
  }

  /** Whatever its bodies do and call, the transaction of an owning run of a read-only template commits no
      write. */
  lemma ReadonlyCommitsNothing(w: World, template: Template, attempts: seq<Attempt>)
    requires w.Valid() && Usable(w, template).None? && template.readonly
    ensures var w' := RunTemplate(w, template, attempts).0;
            && |w.log| <= |w'.log|
            && forall i | |w.log| <= i < |w'.log| && w'.log[i].CommittedTx? && w'.log[i].t == |w.txs| ::
                 w'.log[i].buffer == map[]
  {
    var (t, w1) := (|w.txs|, Entered(w, template));
    assert Blank(w1, t, |w.log|);
    LoopStaysBlank(w1, t, template, attempts, None, t, |w.log|);
  }

  /** Where the called templates join, the store is therefore left to the other threads. */
  lemma ReadonlyLeavesTheStore(w: World, template: Template, attempts: seq<Attempt>)
    requires Owning(w, template, attempts) && template.readonly
    ensures RunTemplate(w, template, attempts).0.store == Others(w.store, attempts, AttemptsMade(w, template, attempts))
  {
    ReadonlyLoop(Entered(w, template), |w.txs|, template, attempts, None);
  }

  lemma {:induction false} ReadonlyLoop(w: World, t: nat, template: Template, attempts: seq<Attempt>,
                                        cause: Option<Exn>)
    requires Fit(w, t) && w.txs[t].readonly && forall a | a in attempts :: JoinsAttempt(a)
    ensures Loop(w, t, template, attempts, cause).0.store
         == Others(w.store, attempts, Rounds(w, t, template, attempts, cause))
    decreases attempts
  {
    if MayTry(w, template) && attempts != [] {
      var a := attempts[0];
      ReadonlyRound(w, t, a, cause);
      var (w1, escapes, cause') := Round(w, t, a, cause);
      if escapes.None? {
        var w2 := Counted(w1, template);
        ReadonlyLoop(w2, t, template, attempts[1..], cause');
        FirstOther(w.store, attempts, Rounds(w2, t, template, attempts[1..], cause'));
      } else {
        FirstOther(w.store, attempts, 0);
      }
    }
  }

  lemma FirstOther(store: Store, attempts: seq<Attempt>, n: nat)
    requires n < |attempts|
    ensures Others(store, attempts, n + 1) == Others(store + attempts[0].others, attempts[1..], n)
  {
  }

  lemma ReadonlyRound(w: World, t: nat, a: Attempt, cause: Option<Exn>)
    requires Fit(w, t) && w.txs[t].readonly && JoinsAttempt(a)
    ensures var (w', escapes, _) := Round(w, t, a, cause);
            w'.store == w.store + a.others && (escapes.None? ==> Fit(w', t) && w'.txs[t].readonly)
  {
    RoundStore(w, t, a, cause);
    RoundStaysBlank(w, t, a, cause, t, |w.log|);
    var w1, o := BodyStores(w, t, a, cause);
    AttemptStaysBlank(Begin(w, t, a.others), t, a, t, |w.log|);
  }
}
