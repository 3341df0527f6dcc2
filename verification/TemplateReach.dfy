/** What a run does to transactions that are not its own: at most, its bodies abort them. */
module TemplateReach {
  import opened JavaInt
  import opened Wrappers
  import opened Stm
  import opened TemplateSpec
  import opened Templates
  import opened TemplateProperties

  // ---------- which aborts are reached ----------

  /** The body, or a body that it calls, comes to abort transaction u. */
  predicate ReachesAbort(w: World, t: nat, actions: seq<Action>, end: End, u: nat)
    requires w.Valid() && t < |w.txs|
    decreases actions
  {
    actions != [] &&
      match actions[0]
      case Do(op, fault) =>
        var r := Operate(w, t, op, fault); r.Ok? && ReachesAbort(r.value, t, actions[1..], end, u)
      case AbortTx => t == u || ReachesAbort(Abort(w, t, BodyAborted(t)), t, actions[1..], end, u)
      case Call(template, attempts, _) =>
        || RunReachesAbort(w, template, attempts, u)
        || (var (w', o) := RunTemplate(w, template, attempts);
            o.Returned? && ReachesAbort(w', t, actions[1..], end, u))
  }

  predicate AttemptReachesAbort(w: World, t: nat, a: Attempt, u: nat)
    requires w.Valid() && t < |w.txs|
    decreases a
  {
    ReachesAbort(w, t, a.body.actions, a.body.end, u)
  }

  predicate LoopReachesAbort(w: World, t: nat, template: Template, attempts: seq<Attempt>, cause: Option<Exn>, u: nat)
    requires w.Valid() && t < |w.txs|
    decreases attempts, 0
  {
    MayTry(w, template) && attempts != [] &&
      (|| AttemptReachesAbort(Begin(w, t, attempts[0].others), t, attempts[0], u)
       || (var (w', escapes, cause') := Round(w, t, attempts[0], cause);
           escapes.None? && LoopReachesAbort(Counted(w', template), t, template, attempts[1..], cause', u)))
  }

  predicate RunReachesAbort(w: World, template: Template, attempts: seq<Attempt>, u: nat)
    requires w.Valid()
    decreases attempts, 1
  {
    match Usable(w, template)
    case Some(t) => attempts != [] && AttemptReachesAbort(w, t, attempts[0], u)
    case None => LoopReachesAbort(Entered(w, template), |w.txs|, template, attempts, None, u)
  }

  // ---------- the events of one transaction ----------

  function Of(t: nat, events: seq<Event>): seq<Event>
    decreases events
  {
    if events == [] then [] else (if events[0].t == t then [events[0]] else []) + Of(t, events[1..])
  }

  lemma {:induction false} OfConcat(t: nat, a: seq<Event>, b: seq<Event>)
    ensures Of(t, a + b) == Of(t, a) + Of(t, b)
    decreases a
  {
    if a == [] {
      assert a + b == b;
    } else {
      assert (a + b)[0] == a[0] && (a + b)[1..] == a[1..] + b;
      OfConcat(t, a[1..], b);
      Associative(if a[0].t == t then [a[0]] else [], Of(t, a[1..]), Of(t, b));
    }
  }

  lemma Associative(a: seq<Event>, b: seq<Event>, c: seq<Event>)
    ensures a + b + c == a + (b + c)
  {
  }

  lemma {:induction false} OfOwn(t: nat, events: seq<Event>)
    requires forall i | 0 <= i < |events| :: events[i].t == t
    ensures Of(t, events) == events
    decreases events
  {
    if events != [] {
      OfOwn(t, events[1..]);
    }
  }

  lemma {:induction false} OfForeign(t: nat, events: seq<Event>)
    requires forall i | 0 <= i < |events| :: events[i].t != t
    ensures Of(t, events) == []
    decreases events
  {
    if events != [] {
      OfForeign(t, events[1..]);
    }
  }

  /** The log of t between two worlds. */
  function LogOf(t: nat, w: World, w': World): seq<Event>
    requires w.log <= w'.log
  {
    Of(t, Suffix(w, w'))
  }

  lemma LogOfConcat(t: nat, w: World, w1: World, w2: World)
    requires w.log <= w1.log && w1.log <= w2.log
    ensures w.log <= w2.log && LogOf(t, w, w2) == LogOf(t, w, w1) + LogOf(t, w1, w2)
  {
    assert Suffix(w, w2) == Suffix(w, w1) + Suffix(w1, w2);
    OfConcat(t, Suffix(w, w1), Suffix(w1, w2));
  }

  lemma LogOfSame(t: nat, w: World, w': World)
    requires w.log == w'.log
    ensures LogOf(t, w, w') == []
  {
  }

  lemma LogOfOwn(t: nat, w: World, w': World, events: seq<Event>)
    requires w'.log == w.log + events && forall i | 0 <= i < |events| :: events[i].t == t
    ensures LogOf(t, w, w') == events
  {
    OfOwn(t, events);
    assert Suffix(w, w') == events;
  }

  lemma LogOfForeign(t: nat, w: World, w': World, events: seq<Event>)
    requires w'.log == w.log + events && forall i | 0 <= i < |events| :: events[i].t != t
    ensures w.log <= w'.log && LogOf(t, w, w') == []
  {
    OfForeign(t, events);
    assert Suffix(w, w') == events;
  }

  // ---------- the effect on transaction u ----------

  /** From w to w' transaction u was aborted by bodies, or left alone. */
  ghost predicate Touched(w: World, w': World, u: nat, aborted: bool) {
    && u < |w.txs| <= |w'.txs| && w.log <= w'.log
    && (forall i | 0 <= i < |LogOf(u, w, w')| :: LogOf(u, w, w')[i] == BodyAborted(u))
    && (aborted <==> LogOf(u, w, w') != [])
    && w'.txs[u].status == if aborted then Aborted else w.txs[u].status
  }

  lemma TouchedTwice(w: World, w1: World, w2: World, u: nat, first: bool, second: bool)
    requires Touched(w, w1, u, first) && Touched(w1, w2, u, second)
    ensures Touched(w, w2, u, first || second)
  {
    LogOfConcat(u, w, w1, w2);
  }

  lemma AbortTouches(w: World, t: nat, u: nat)
    requires t < |w.txs| && u < |w.txs|
    ensures Touched(w, Abort(w, t, BodyAborted(t)), u, t == u)
  {
    if t == u {
      LogOfOwn(u, w, Abort(w, t, BodyAborted(t)), [BodyAborted(t)]);
    } else {
      LogOfForeign(u, w, Abort(w, t, BodyAborted(t)), [BodyAborted(t)]);
    }
  }

  lemma OperationTouches(w: World, t: nat, op: Op, fault: Option<nat>, u: nat)
    requires t < |w.txs| && u < |w.txs|
    ensures var r := Operate(w, t, op, fault); r.Ok? ==> Touched(w, r.value, u, false)
  {
    var r := Operate(w, t, op, fault);
    if r.Ok? {
      LogOfSame(u, w, r.value);
    }
  }

  /** What a template does by itself concerns its own transaction t only. */
  lemma FinishTouches(w: World, t: nat, o: Outcome, granted: bool, cause: Option<Exn>, u: nat)
    requires t < |w.txs| && u < |w.txs| && u != t && !o.Running?
    ensures Touched(w, Finish(w, t, o, granted, cause).0, u, false)
  {
    FinishLog(w, t, o, granted, cause);
    LogOfForeign(u, w, Finish(w, t, o, granted, cause).0, FinishEvents(w, t, o, granted));
  }

  /** What the commit, the catch clauses and the finally block record. */
  function FinishEvents(w: World, t: nat, o: Outcome, granted: bool): (events: seq<Event>)
    requires t < |w.txs| && !o.Running?
    ensures forall i | 0 <= i < |events| :: events[i].t == t
  {
    if o.Returned? && w.txs[t].status != Aborted && CommitSucceeds(w, t, granted) then [CommittedTx(t, w.txs[t].buffer)]
    else
      var ex := if o.Threw? then o.ex else if w.txs[t].status == Aborted then AbortedException else CommitFailure(0);
      if ex.RetryError? then [Failed(t, ex), AbortedAndWaited(t)]
      else if IsConflict(ex) then [Failed(t, ex), TemplateAborted(t), Restarted(t)]
      else [Failed(t, ex), TemplateAborted(t)]
  }

  lemma FinishLog(w: World, t: nat, o: Outcome, granted: bool, cause: Option<Exn>)
    requires t < |w.txs| && !o.Running?
    ensures var w' := Finish(w, t, o, granted, cause).0;
            && w'.log == w.log + FinishEvents(w, t, o, granted)
            && forall u | 0 <= u < |w.txs| && u != t :: w'.txs[u] == w.txs[u]
  {
  }

  // ---------- whole runs ----------

  lemma {:induction false} BodyTouches(w: World, t: nat, actions: seq<Action>, end: End, u: nat)
    requires w.Valid() && t < |w.txs| && u < |w.txs|
    ensures Touched(w, RunActions(w, t, actions, end).0, u, ReachesAbort(w, t, actions, end, u))
    decreases actions, 1
  {
    if actions == [] {
      LogOfSame(u, w, w);
    } else {
      match actions[0] {
        case Do(op, fault) =>
          var r := Operate(w, t, op, fault);
          LogOfSame(u, w, w);
          OperationTouches(w, t, op, fault, u);
          if r.Ok? {
            BodyTouches(r.value, t, actions[1..], end, u);
            TouchedTwice(w, r.value, RunActions(w, t, actions, end).0, u, false,
              ReachesAbort(r.value, t, actions[1..], end, u));
          }
        case AbortTx =>
          var w1 := Abort(w, t, BodyAborted(t));
          AbortTouches(w, t, u);
          BodyTouches(w1, t, actions[1..], end, u);
          TouchedTwice(w, w1, RunActions(w, t, actions, end).0, u, t == u, ReachesAbort(w1, t, actions[1..], end, u));
        case Call(_, _, _) =>
          CallTouches(w, t, actions, end, u);
      }
    }
  }

  lemma {:induction false} CallTouches(w: World, t: nat, actions: seq<Action>, end: End, u: nat)
    requires w.Valid() && t < |w.txs| && u < |w.txs| && actions != [] && actions[0].Call?
    ensures Touched(w, RunActions(w, t, actions, end).0, u, ReachesAbort(w, t, actions, end, u))
    decreases actions, 0
  {
    var Call(template, attempts, _) := actions[0];
    RunTouches(w, template, attempts, u);
    var (w1, o) := RunTemplate(w, template, attempts);
    if o.Returned? {
      BodyTouches(w1, t, actions[1..], end, u);
      var w2 := RunActions(w1, t, actions[1..], end).0;
      TouchedTwice(w, w1, w2, u, RunReachesAbort(w, template, attempts, u), ReachesAbort(w1, t, actions[1..], end, u));
    }
  }

  lemma {:induction false} AttemptTouches(w: World, t: nat, a: Attempt, u: nat)
    requires w.Valid() && t < |w.txs| && u < |w.txs|
    ensures Touched(w, RunBody(w, t, a).0, u, AttemptReachesAbort(w, t, a, u))
    decreases a, 0
  {
    BodyTouches(w, t, a.body.actions, a.body.end, u);
  }

  lemma {:induction false} RoundTouches(w: World, t: nat, a: Attempt, cause: Option<Exn>, u: nat)
    requires w.Valid() && t < |w.txs| && u < |w.txs| && u != t
    ensures Touched(w, Round(w, t, a, cause).0, u, AttemptReachesAbort(Begin(w, t, a.others), t, a, u))
    decreases a, 1
  {
    var w0 := Begin(w, t, a.others);
    var (w1, o) := RunBody(w0, t, a);
    LogOfForeign(u, w, w0, [Began(t, w.IsActive(t), a.others)]);
    AttemptTouches(w0, t, a, u);
    TouchedTwice(w, w0, w1, u, false, AttemptReachesAbort(w0, t, a, u));
    if !o.Running? {
      FinishTouches(w1, t, o, a.granted, cause, u);
      TouchedTwice(w, w1, Finish(w1, t, o, a.granted, cause).0, u, AttemptReachesAbort(w0, t, a, u), false);
    }
  }

  lemma {:induction false} LoopTouches(w: World, t: nat, template: Template, attempts: seq<Attempt>,
                                       cause: Option<Exn>, u: nat)
    requires w.Valid() && t < |w.txs| && u < |w.txs| && u != t
    ensures Touched(w, Loop(w, t, template, attempts, cause).0, u, LoopReachesAbort(w, t, template, attempts, cause, u))
    decreases attempts, 0
  {
    if !MayTry(w, template) || attempts == [] {
      LogOfSame(u, w, w);
    } else {
      RoundTouches(w, t, attempts[0], cause, u);
      var (w1, escapes, cause') := Round(w, t, attempts[0], cause);
      if escapes.None? {
        var w2 := Counted(w1, template);
        LogOfSame(u, w1, w2);
        LoopTouches(w2, t, template, attempts[1..], cause', u);
        var w' := Loop(w2, t, template, attempts[1..], cause').0;
        TouchedTwice(w1, w2, w', u, false, LoopReachesAbort(w2, t, template, attempts[1..], cause', u));
        TouchedTwice(w, w1, w', u, AttemptReachesAbort(Begin(w, t, attempts[0].others), t, attempts[0], u),
          LoopReachesAbort(w2, t, template, attempts[1..], cause', u));
      }
    }
  }

  /** A run aborts transactions that were there before only by its bodies, and does nothing else to them. */
  lemma {:induction false} RunTouches(w: World, template: Template, attempts: seq<Attempt>, u: nat)
    requires w.Valid() && u < |w.txs|
    ensures Touched(w, RunTemplate(w, template, attempts).0, u, RunReachesAbort(w, template, attempts, u))
    decreases attempts, 1
  {
    match Usable(w, template)
    case Some(t) =>
      if attempts == [] {
        LogOfSame(u, w, w);
      } else {
        AttemptTouches(w, t, attempts[0], u);
      }
    case None =>
      var w1 := Entered(w, template);
      LogOfForeign(u, w, w1, [Started(|w.txs|)]);
      LoopTouches(w1, |w.txs|, template, attempts, None, u);
      var w2 := Loop(w1, |w.txs|, template, attempts, None).0;
      var w' := RunTemplate(w, template, attempts).0;
      TouchedTwice(w, w1, w2, u, false, RunReachesAbort(w, template, attempts, u));
      LogOfSame(u, w2, w');
      TouchedTwice(w, w2, w', u, RunReachesAbort(w, template, attempts, u), false);
  }
}
