/** The life of the transaction that a run owns, told by the log. */
module TemplateLifecycle {
  import opened JavaInt
  import opened Wrappers
  import opened Stm
  import opened TemplateSpec
  import opened Templates
  import opened TemplateProperties
  import opened TemplateReach

  // ---------- permitted lives ----------

  /** Failing: the attempt ended with ex.  Dropped: it was aborted for that. */
  datatype Phase = Idle | Ready | InBody | SelfAborted | Failing(ex: Exn) | Dropped(ex: Exn) | Finished | Broken

  /** The permitted life of transaction t, one event at a time. */
  function Next(phase: Phase, t: nat, e: Event): Phase {
    if e.t != t then Broken
    else
      match (phase, e)
      case (Idle, Started(_)) => Ready
      case (Ready, Began(_, active, _)) => if active then InBody else Broken
      case (InBody, BodyAborted(_)) => SelfAborted
      case (SelfAborted, BodyAborted(_)) => SelfAborted
      case (InBody, Failed(_, ex)) => Failing(ex)
      case (SelfAborted, Failed(_, ex)) => Failing(ex)
      case (Failing(ex), TemplateAborted(_)) => if ex.RetryError? then Broken else Dropped(ex)
      case (Failing(ex), AbortedAndWaited(_)) => if ex.RetryError? then Ready else Broken
      case (Dropped(ex), Restarted(_)) => if IsConflict(ex) then Ready else Broken
      case (InBody, CommittedTx(_, _)) => Finished
      case _ => Broken
  }

  function Life(phase: Phase, t: nat, events: seq<Event>): Phase
    decreases events
  {
    if events == [] then phase else Life(Next(phase, t, events[0]), t, events[1..])
  }

  /** How often an attempt began. */
  function Attempts(events: seq<Event>): nat {
    if events == [] then 0 else (if events[0].Began? then 1 else 0) + Attempts(events[1..])
  }

  /** The last conflict or load failure that ended an attempt, or the given one. */
  function LastFailure(cause: Option<Exn>, events: seq<Event>): Option<Exn>
    decreases events
  {
    if events == [] then cause
    else
      var e := events[0];
      LastFailure(if e.Failed? && IsConflict(e.ex) then Some(e.ex) else cause, events[1..])
  }

  lemma {:induction false} LifeOfConcat(phase: Phase, t: nat, a: seq<Event>, b: seq<Event>, cause: Option<Exn>)
    ensures Life(phase, t, a + b) == Life(Life(phase, t, a), t, b)
    ensures Attempts(a + b) == Attempts(a) + Attempts(b)
    ensures LastFailure(cause, a + b) == LastFailure(LastFailure(cause, a), b)
    decreases a
  {
    if a == [] {
      assert a + b == b;
    } else {
      assert (a + b)[0] == a[0] && (a + b)[1..] == a[1..] + b;
      var e := a[0];
      LifeOfConcat(Next(phase, t, e), t, a[1..], b,
        if e.Failed? && IsConflict(e.ex) then Some(e.ex) else cause);
    }
  }

  lemma {:induction false} LifeOfBodyAborts(t: nat, events: seq<Event>, phase: Phase, cause: Option<Exn>)
    requires forall i | 0 <= i < |events| :: events[i] == BodyAborted(t)
    requires phase == InBody || phase == SelfAborted
    ensures Life(phase, t, events) == if events == [] then phase else SelfAborted
    ensures Attempts(events) == 0 && LastFailure(cause, events) == cause
    decreases events
  {
    if events != [] {
      LifeOfBodyAborts(t, events[1..], SelfAborted, cause);
    }
  }

  /** The three readings of a log, unrolled for the events of one finished attempt. */
  lemma LifeOfFew(phase: Phase, t: nat, events: seq<Event>, cause: Option<Exn>)
    requires 1 <= |events| <= 3 && !events[0].Began?
    requires forall i | 1 <= i < |events| :: !events[i].Failed? && !events[i].Began?
    ensures Life(phase, t, events) ==
            var p := Next(phase, t, events[0]);
            if |events| == 1 then p
            else var q := Next(p, t, events[1]); if |events| == 2 then q else Next(q, t, events[2])
    ensures Attempts(events) == 0
    ensures LastFailure(cause, events) ==
            if events[0].Failed? && IsConflict(events[0].ex)
            then Some(events[0].ex) else cause
    decreases |events|
  {
    var p := Next(phase, t, events[0]);
    var tail := events[1..];
    assert Life(phase, t, events) == Life(p, t, tail);
    assert Attempts(events) == Attempts(tail);
    if tail != [] {
      LifeOfFew(p, t, tail, LastFailure(cause, [events[0]]));
    }
  }

  // ---------- accounts of a life ----------

  function Failures(events: seq<Event>): nat {
    if events == [] then 0 else (if events[0].Failed? then 1 else 0) + Failures(events[1..])
  }

  /** Aborts by the template, with or without waiting. */
  function Drops(events: seq<Event>): nat {
    if events == [] then 0
    else (if events[0].TemplateAborted? || events[0].AbortedAndWaited? then 1 else 0) + Drops(events[1..])
  }

  function BodyAborts(events: seq<Event>): nat {
    if events == [] then 0 else (if events[0].BodyAborted? then 1 else 0) + BodyAborts(events[1..])
  }

  /** Everybody's aborts. */
  function Aborts(events: seq<Event>): nat {
    BodyAborts(events) + Drops(events)
  }

  lemma {:induction false} BrokenStays(t: nat, events: seq<Event>)
    ensures Life(Broken, t, events) == Broken
    decreases events
  {
    if events != [] {
      BrokenStays(t, events[1..]);
    }
  }

  /** In a permitted life the template drops the transaction once for every failure. */
  lemma {:induction false} LifeBalances(phase: Phase, t: nat, events: seq<Event>)
    requires Life(phase, t, events) != Broken
    ensures Failures(events) + (if phase.Failing? then 1 else 0)
         == Drops(events) + (if Life(phase, t, events).Failing? then 1 else 0)
    decreases events
  {
    if events != [] {
      var next := Next(phase, t, events[0]);
      if next == Broken {
        BrokenStays(t, events[1..]);
      }
      LifeBalances(next, t, events[1..]);
    }
  }

  lemma NothingAfterCommit(t: nat, events: seq<Event>)
    requires events != []
    ensures Life(Finished, t, events) == Broken
  {
    BrokenStays(t, events[1..]);
  }

  /** A commit is the last event of all. */
  lemma {:induction false} CommitIsLast(phase: Phase, t: nat, events: seq<Event>, i: nat)
    requires Life(phase, t, events) != Broken && i < |events| && events[i].CommittedTx?
    ensures i == |events| - 1
    decreases events
  {
    var next := Next(phase, t, events[0]);
    BrokenStays(t, events[1..]);
    if i > 0 {
      CommitIsLast(next, t, events[1..], i - 1);
    } else if |events| > 1 {
      NothingAfterCommit(t, events[1..]);
    }
  }

  function Commits(events: seq<Event>): nat {
    if events == [] then 0 else (if events[0].CommittedTx? then 1 else 0) + Commits(events[1..])
  }

  predicate IsOpen(phase: Phase) {
    phase == InBody || phase == SelfAborted
  }

  /** In a permitted life every attempt ends with a failure or with the commit. */
  lemma {:induction false} AttemptsEnd(phase: Phase, t: nat, events: seq<Event>)
    requires Life(phase, t, events) != Broken
    ensures Attempts(events) + (if IsOpen(phase) then 1 else 0)
         == Failures(events) + Commits(events) + (if IsOpen(Life(phase, t, events)) then 1 else 0)
    ensures Commits(events) + (if phase == Finished then 1 else 0)
         == if Life(phase, t, events) == Finished then 1 else 0
    decreases events
  {
    if events != [] {
      var next := Next(phase, t, events[0]);
      if next == Broken {
        BrokenStays(t, events[1..]);
      }
      AttemptsEnd(next, t, events[1..]);
    }
  }

  /** An attempt that commits has not aborted by itself. */
  lemma {:induction false} CommittedWithoutAbort(phase: Phase, t: nat, events: seq<Event>)
    requires Attempts(events) == 0 && Life(phase, t, events) == Finished
    ensures phase in {InBody, Finished} && BodyAborts(events) == 0
    decreases events
  {
    if events != [] {
      var next := Next(phase, t, events[0]);
      if next == Broken {
        BrokenStays(t, events[1..]);
      }
      CommittedWithoutAbort(next, t, events[1..]);
    }
  }

  lemma {:induction false} BodyAbortsOfConcat(a: seq<Event>, b: seq<Event>)
    ensures BodyAborts(a + b) == BodyAborts(a) + BodyAborts(b)
    decreases a
  {
    if a == [] {
      assert a + b == b;
    } else {
      assert (a + b)[0] == a[0] && (a + b)[1..] == a[1..] + b;
      BodyAbortsOfConcat(a[1..], b);
    }
  }

  // ---------- one attempt ----------

  /** What an attempt does to the life of its transaction t, which is active before it: a single attempt,
      and the phase that goes with its end.  aborted says if the body aborted t. */
  ghost predicate AttemptLives(events: seq<Event>, t: nat, escapes: Option<Outcome>, cause: Option<Exn>,
                               cause': Option<Exn>, aborted: bool)
  {
    && Attempts(events) == 1 && cause' == LastFailure(cause, events) && (aborted <==> BodyAborts(events) > 0)
    && match escapes {
         case None => Life(Ready, t, events) == Ready
         case Some(Returned(_)) => Life(Ready, t, events) == Finished
         case Some(Threw(ex)) => Life(Ready, t, events) == Dropped(ex) && !IsRetried(ex)
         case Some(Running) => IsOpen(Life(Ready, t, events))
       }
  }

  lemma RoundLives(w: World, t: nat, a: Attempt, cause: Option<Exn>)
    requires w.Valid() && t < |w.txs| && w.IsActive(t)
    ensures var (w', escapes, cause') := Round(w, t, a, cause);
            && w.log <= w'.log
            && AttemptLives(LogOf(t, w, w'), t, escapes, cause, cause',
                            AttemptReachesAbort(Begin(w, t, a.others), t, a, t))
            && (escapes.None? ==> w'.IsActive(t))
  {
    var w0 := Begin(w, t, a.others);
    var (w1, o) := RunBody(w0, t, a);
    var aborted := AttemptReachesAbort(w0, t, a, t);
    var began := Began(t, true, a.others);
    AttemptTouches(w0, t, a, t);
    LogOfOwn(t, w, w0, [began]);
    LogOfConcat(t, w, w0, w1);
    var aborts := LogOf(t, w0, w1);
    OpenAfter(t, began, aborts, cause);
    if !o.Running? {
      var (w', escapes, cause') := Finish(w1, t, o, a.granted, cause);
      var rest := FinishEvents(w1, t, o, a.granted);
      FinishLog(w1, t, o, a.granted, cause);
      LogOfOwn(t, w1, w', rest);
      LogOfConcat(t, w, w1, w');
      FinishLives(w1, t, o, a.granted, cause, if aborted then SelfAborted else InBody);
      ClosedAfter(t, [began] + aborts, rest, cause);
    }
  }

  /** The beginning of an attempt and the aborts of its body. */
  lemma OpenAfter(t: nat, began: Event, aborts: seq<Event>, cause: Option<Exn>)
    requires began.Began? && began.t == t && began.active
    requires forall i | 0 <= i < |aborts| :: aborts[i] == BodyAborted(t)
    ensures var events := [began] + aborts;
            && Life(Ready, t, events) == (if aborts == [] then InBody else SelfAborted)
            && Attempts(events) == 1 && LastFailure(cause, events) == cause && BodyAborts(events) == |aborts|
  {
    LifeOfConcat(Ready, t, [began], aborts, cause);
    BodyAbortsOfConcat([began], aborts);
    assert [began][1..] == [];
    LifeOfBodyAborts(t, aborts, InBody, cause);
    BodyAbortsOfBody(t, aborts);
  }

  lemma {:induction false} BodyAbortsOfBody(t: nat, events: seq<Event>)
    requires forall i | 0 <= i < |events| :: events[i] == BodyAborted(t)
    ensures BodyAborts(events) == |events|
    decreases events
  {
    if events != [] {
      BodyAbortsOfBody(t, events[1..]);
    }
  }

  /** And its end. */
  lemma ClosedAfter(t: nat, events: seq<Event>, rest: seq<Event>, cause: Option<Exn>)
    requires Attempts(events) == 1 && Attempts(rest) == 0 && BodyAborts(rest) == 0
    requires LastFailure(cause, events) == cause
    ensures Life(Ready, t, events + rest) == Life(Life(Ready, t, events), t, rest)
    ensures Attempts(events + rest) == 1 && LastFailure(cause, events + rest) == LastFailure(cause, rest)
    ensures BodyAborts(events + rest) == BodyAborts(events)
  {
    LifeOfConcat(Ready, t, events, rest, cause);
    BodyAbortsOfConcat(events, rest);
  }

  lemma FinishLives(w: World, t: nat, o: Outcome, granted: bool, cause: Option<Exn>, phase: Phase)
    requires t < |w.txs| && !o.Running?
    requires phase == (if w.IsActive(t) then InBody else SelfAborted) && w.txs[t].status != Committed
    ensures var (w', escapes, cause') := Finish(w, t, o, granted, cause);
            var rest := FinishEvents(w, t, o, granted);
            && Attempts(rest) == 0 && BodyAborts(rest) == 0 && LastFailure(cause, rest) == cause'
            && match escapes {
                 case None => Life(phase, t, rest) == Ready && w'.IsActive(t)
                 case Some(Returned(_)) => Life(phase, t, rest) == Finished
                 case Some(Threw(ex)) => Life(phase, t, rest) == Dropped(ex) && !IsRetried(ex)
                 case Some(Running) => false
               }
  {
    var rest := FinishEvents(w, t, o, granted);
    LifeOfFew(phase, t, rest, cause);
    NoBodyAborts(rest);
  }

  lemma {:induction false} NoBodyAborts(events: seq<Event>)
    requires forall i | 0 <= i < |events| :: !events[i].BodyAborted?
    ensures BodyAborts(events) == 0
    decreases events
  {
    if events != [] {
      NoBodyAborts(events[1..]);
    }
  }

  // ---------- whole runs ----------

  /** The guard ends the loop, not an attempt. */
  predicate GivesUp(w: World, t: nat, template: Template, attempts: seq<Attempt>, cause: Option<Exn>)
    requires w.Valid() && t < |w.txs|
    decreases attempts
  {
    MayTry(w, template) ==>
      && attempts != []
      && var (w', escapes, cause') := Round(w, t, attempts[0], cause);
         escapes.None? && GivesUp(Counted(w', template), t, template, attempts[1..], cause')
  }

  /** The life of t over a loop of `made` attempts. */
  ghost predicate LoopLives(events: seq<Event>, t: nat, o: Outcome, cause: Option<Exn>, made: nat, aborted: bool,
                            gaveUp: bool) {
    && Attempts(events) == made && (aborted <==> BodyAborts(events) > 0)
    && (gaveUp ==> o == Threw(TooManyRetries(LastFailure(cause, events))) && Life(Ready, t, events) == Ready)
    && match o {
         case Running => Life(Ready, t, events) == Ready || IsOpen(Life(Ready, t, events))
         case Returned(_) => Life(Ready, t, events) == Finished
         case Threw(ex) => gaveUp || (Life(Ready, t, events) == Dropped(ex) && !IsRetried(ex))
       }
  }

  lemma {:induction false} EveryLoopLives(w: World, t: nat, template: Template, attempts: seq<Attempt>,
                                          cause: Option<Exn>)
    requires w.Valid() && t < |w.txs| && w.IsActive(t)
    ensures var (w', o) := Loop(w, t, template, attempts, cause);
            && w.log <= w'.log
            && LoopLives(LogOf(t, w, w'), t, o, cause, Rounds(w, t, template, attempts, cause),
                         LoopReachesAbort(w, t, template, attempts, cause, t), GivesUp(w, t, template, attempts, cause))
    decreases attempts
  {
    if !MayTry(w, template) || attempts == [] {
      LogOfSame(t, w, w);
    } else {
      var a := attempts[0];
      RoundLives(w, t, a, cause);
      var (w1, escapes, cause') := Round(w, t, a, cause);
      if escapes.None? {
        var w2 := Counted(w1, template);
        EveryLoopLives(w2, t, template, attempts[1..], cause');
        var (w', o) := Loop(w2, t, template, attempts[1..], cause');
        LogOfConcat(t, w, w1, w');
        AttemptThenLoop(LogOf(t, w, w1), LogOf(t, w2, w'), t, o, cause, cause',
          Rounds(w2, t, template, attempts[1..], cause'),
          AttemptReachesAbort(Begin(w, t, a.others), t, a, t),
          LoopReachesAbort(w2, t, template, attempts[1..], cause', t),
          GivesUp(w2, t, template, attempts[1..], cause'));
      }
    }
  }

  lemma AttemptThenLoop(first: seq<Event>, rest: seq<Event>, t: nat, o: Outcome, cause: Option<Exn>,
                        cause': Option<Exn>, made: nat, aborted: bool, aborted': bool, gaveUp: bool)
    requires AttemptLives(first, t, None, cause, cause', aborted)
             && LoopLives(rest, t, o, cause', made, aborted', gaveUp)
    ensures LoopLives(first + rest, t, o, cause, made + 1, aborted || aborted', gaveUp)
  {
    LifeOfConcat(Ready, t, first, rest, cause);
    BodyAbortsOfConcat(first, rest);
  }

  /** The run has its own transaction: any template that finds none to join, whatever its body calls. */
  ghost predicate Owns(w: World, template: Template) {
    w.Valid() && Usable(w, template).None?
  }

  lemma RunLives(w: World, template: Template, attempts: seq<Attempt>)
    requires Owns(w, template)
    ensures var (t, w1) := (|w.txs|, Entered(w, template));
            var (w', o) := RunTemplate(w, template, attempts);
            && w.log <= w'.log && w1.log <= w'.log && LogOf(t, w, w') == [Started(t)] + LogOf(t, w1, w')
            && LoopLives(LogOf(t, w1, w'), t, o, None, AttemptsMade(w, template, attempts),
                         RunReachesAbort(w, template, attempts, t), GivesUp(w1, t, template, attempts, None))
  {
    var (t, w1) := (|w.txs|, Entered(w, template));
    EveryLoopLives(w1, t, template, attempts, None);
    var w' := RunTemplate(w, template, attempts).0;
    LogOfOwn(t, w, w1, [Started(t)]);
    LogOfConcat(t, w, w1, w');
  }

  /** Lifecycle of every owning run: the log of its transaction is a permitted life.  Every attempt that
      ended failed or committed; every failed one is dropped once by the template; all aborts together
      are one per failed attempt exactly when no body comes to abort the transaction.  A commit is the
      last event.  An exception that leaves the run is the one that ended the last attempt, unless the
      template gave up, and then with the last conflict or load failure.  A template that respects the
      slot leaves it empty. */
  lemma Lifecycle(w: World, template: Template, attempts: seq<Attempt>)
    requires Owns(w, template)
    ensures var t := |w.txs|;
            var (w', o) := RunTemplate(w, template, attempts);
            && w.log <= w'.log
            && var events := LogOf(t, w, w');
            && (!o.Running? ==> Attempts(events) == Failures(events) + Commits(events))
            && Drops(events) == Failures(events)
            && (Aborts(events) == Failures(events) <==> !RunReachesAbort(w, template, attempts, t))
            && (forall i | 0 <= i < |events| && events[i].CommittedTx? :: i == |events| - 1)
            && (!o.Running? && !template.ignoreThreadLocal ==> w'.slot == None)
            && match o {
                 case Running => Life(Idle, t, events) == Ready || IsOpen(Life(Idle, t, events))
                 case Returned(_) => Life(Idle, t, events) == Finished
                 case Threw(ex) =>
                   if GivesUp(Entered(w, template), t, template, attempts, None) then
                     Life(Idle, t, events) == Ready && ex == TooManyRetries(LastFailure(None, events))
                   else
                     Life(Idle, t, events) == Dropped(ex) && !IsRetried(ex)
               }
  {
    RunLives(w, template, attempts);
    var (t, w1, w') := (|w.txs|, Entered(w, template), RunTemplate(w, template, attempts).0);
    ReadFromStart(t, LogOf(t, w1, w'));
    AccountsBalance(t, LogOf(t, w, w'));
  }

  lemma ReadFromStart(t: nat, events: seq<Event>)
    ensures var all := [Started(t)] + events;
            && Life(Idle, t, all) == Life(Ready, t, events) && LastFailure(None, all) == LastFailure(None, events)
            && BodyAborts(all) == BodyAborts(events)
  {
    assert ([Started(t)] + events)[1..] == events;
  }

  lemma AccountsBalance(t: nat, events: seq<Event>)
    requires var end := Life(Idle, t, events); end != Broken && !end.Failing?
    ensures Drops(events) == Failures(events)
    ensures !IsOpen(Life(Idle, t, events)) ==> Attempts(events) == Failures(events) + Commits(events)
    ensures forall i | 0 <= i < |events| && events[i].CommittedTx? :: i == |events| - 1
  {
    LifeBalances(Idle, t, events);
    AttemptsEnd(Idle, t, events);
    forall i | 0 <= i < |events| && events[i].CommittedTx? ensures i == |events| - 1 {
      CommitIsLast(Idle, t, events, i);
    }
  }

  // ---------- aborted once, or twice ----------

  /** One attempt of any body: it fails or commits, unless the script ends inside it.  A failed one is
      aborted exactly once if and only if its body does not come to abort the transaction; a committed
      one never. */
  lemma AbortsOfAttempt(w: World, t: nat, a: Attempt, cause: Option<Exn>)
    requires w.Valid() && t < |w.txs| && w.IsActive(t)
    ensures var (w', escapes, _) := Round(w, t, a, cause);
            && w.log <= w'.log
            && var events := LogOf(t, w, w');
            match escapes {
              case Some(Running) => true
              case Some(Returned(_)) => Failures(events) == Aborts(events) == 0
              case _ =>
                && Failures(events) == 1
                && (Aborts(events) == 1 <==> !AttemptReachesAbort(Begin(w, t, a.others), t, a, t))
            }
  {
    RoundLives(w, t, a, cause);
    var (w', escapes, _) := Round(w, t, a, cause);
    if escapes != Some(Running) {
      AbortsOfOne(t, LogOf(t, w, w'));
    }
  }

  lemma AbortsOfOne(t: nat, events: seq<Event>)
    requires var end := Life(Ready, t, events);
             Attempts(events) == 1 && end != Broken && !end.Failing? && !IsOpen(end)
    ensures if Life(Ready, t, events) == Finished then Failures(events) == Aborts(events) == 0
            else Failures(events) == 1 && (Aborts(events) == 1 <==> BodyAborts(events) == 0)
  {
    LifeBalances(Ready, t, events);
    AttemptsEnd(Ready, t, events);
    var next := Next(Ready, t, events[0]);
    if next == Broken {
      BrokenStays(t, events[1..]);
    }
    if Life(Ready, t, events) == Finished {
      CommittedWithoutAbort(next, t, events[1..]);
    }
  }

  /** For joining bodies a look at the inlined actions is enough. */
  lemma {:induction false} WithoutAbortNoneIsReached(w: World, t: nat, actions: seq<Action>, end: End)
    requires Current(w, t, true) && Joins(actions, true) && AbortTx !in Inlined(actions, end).actions
    ensures !ReachesAbort(w, t, actions, end, t)
    decreases actions
  {
    if actions != [] {
      match actions[0] {
        case Do(op, fault) =>
          var r := Operate(w, t, op, fault);
          if r.Ok? {
            WithoutAbortNoneIsReached(r.value, t, actions[1..], end);
          }
        case AbortTx =>
          assert false;
        case Call(template, attempts, _) =>
          AttemptWithoutAbort(w, t, attempts[0]);
          JoiningAttempt(w, t, attempts[0], true);
          var (w1, o) := RunTemplate(w, template, attempts);
          if o.Returned? {
            WithoutAbortNoneIsReached(w1, t, actions[1..], end);
          }
      }
    }
  }

  lemma {:induction false} AttemptWithoutAbort(w: World, t: nat, a: Attempt)
    requires Current(w, t, true) && JoinsAttempt(a) && AbortTx !in InlinedAttempt(a).actions
    ensures !AttemptReachesAbort(w, t, a, t)
    decreases a
  {
    WithoutAbortNoneIsReached(w, t, a.body.actions, a.body.end);
  }

  /** So an attempt of a joining body without aborts is aborted exactly once if it fails. */
  lemma AbortedOnceWithoutAborts(w: World, t: nat, a: Attempt, cause: Option<Exn>)
    requires Current(w, t, true) && JoinsAttempt(a) && AbortTx !in InlinedAttempt(a).actions
    ensures var (w', escapes, _) := Round(w, t, a, cause);
            && w.log <= w'.log
            && Aborts(LogOf(t, w, w')) == if escapes.Some? && escapes.value.Returned? then 0 else 1
  {
    AbortsOfAttempt(w, t, a, cause);
    AttemptWithoutAbort(Begin(w, t, a.others), t, a);
    JoiningAttempt(Begin(w, t, a.others), t, a, true);
  }

  /** The body that aborts by itself is aborted once more by the template. */
  lemma SelfAbortIsAbortedTwice()
    ensures var template := Template(0, 0, false, false);
            var attempt := Attempt(map[], Body([AbortTx], Return("")), true);
            RunTemplate(World(map[], [], None, [], map[]), template, [attempt]).0.log
            == [Started(0), Began(0, true, map[]), BodyAborted(0), Failed(0, AbortedException), TemplateAborted(0)]
  {
    var template := Template(0, 0, false, false);
    var attempt := Attempt(map[], Body([AbortTx], Return("")), true);
    var empty := World(map[], [], None, [], map[]);
    var w := Entered(empty, template);
    var w1 := Abort(Begin(w, 0, map[]), 0, BodyAborted(0));
    assert [AbortTx][1..] == [];
    assert RunActions(w1, 0, [], Return("")) == (w1, Returned(""));
    assert RunBody(Begin(w, 0, map[]), 0, attempt) == (w1, Returned(""));
    assert Wrap32(0) == 0;
    var w2 := Abort(FailedWith(w1, 0, AbortedException), 0, TemplateAborted(0));
    assert Round(w, 0, attempt, None) == (w2, Some(Threw(AbortedException)), None);
    assert Loop(w, 0, template, [attempt], None) == (w2, Threw(AbortedException));
    assert w2.log == [Started(0)] + [Began(0, true, map[])] + [BodyAborted(0)] + [Failed(0, AbortedException)]
                     + [TemplateAborted(0)];
    assert RunTemplate(empty, template, [attempt]) == (SetSlot(w2, None), Threw(AbortedException));
  }
}
