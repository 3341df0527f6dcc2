/** How many attempts a run makes, and what `getAttemptCount` shows meanwhile. */
module TemplateCounts {
  import opened JavaInt
  import opened Wrappers
  import opened Stm
  import opened TemplateSpec
  import opened Templates
  import opened TemplateProperties
  import opened TemplateReach
  import opened TemplateLifecycle

  // ---------- attempts that leave the count alone ----------

  /** Every attempt that asks for another one leaves the count of its template as it found it. */
  predicate KeepsCount(w: World, t: nat, template: Template, attempts: seq<Attempt>, cause: Option<Exn>)
    requires w.Valid() && t < |w.txs|
    decreases attempts
  {
    MayTry(w, template) && attempts != [] ==>
      var (w', escapes, cause') := Round(w, t, attempts[0], cause);
      escapes.None? ==>
        w'.Count(template) == w.Count(template) && KeepsCount(Counted(w', template), t, template, attempts[1..], cause')
  }

  /** The template with this identity is called nowhere, at any depth. */
  predicate Avoids(actions: seq<Action>, id: nat)
    decreases actions
  {
    actions != [] ==>
      && (actions[0].Call? ==> actions[0].template.id != id && AvoidsAll(actions[0].attempts, id))
      && Avoids(actions[1..], id)
  }

  predicate AvoidsAll(attempts: seq<Attempt>, id: nat)
    decreases attempts
  {
    attempts != [] ==> AttemptAvoids(attempts[0], id) && AvoidsAll(attempts[1..], id)
  }

  predicate AttemptAvoids(a: Attempt, id: nat)
    decreases a
  {
    Avoids(a.body.actions, id)
  }

  lemma {:induction false} BodyKeepsCount(w: World, t: nat, actions: seq<Action>, end: End, template: Template)
    requires w.Valid() && t < |w.txs| && Avoids(actions, template.id)
    ensures RunActions(w, t, actions, end).0.Count(template) == w.Count(template)
    decreases actions
  {
    if actions != [] {
      match actions[0] {
        case Do(op, fault) =>
          var r := Operate(w, t, op, fault);
          if r.Ok? {
            BodyKeepsCount(r.value, t, actions[1..], end, template);
          }
        case AbortTx =>
          BodyKeepsCount(Abort(w, t, BodyAborted(t)), t, actions[1..], end, template);
        case Call(called, attempts, _) =>
          RunKeepsCount(w, called, attempts, template);
          var (w1, o) := RunTemplate(w, called, attempts);
          if o.Returned? {
            BodyKeepsCount(w1, t, actions[1..], end, template);
          }
      }
    }
  }

  lemma {:induction false} AttemptKeepsCount(w: World, t: nat, a: Attempt, template: Template)
    requires w.Valid() && t < |w.txs| && AttemptAvoids(a, template.id)
    ensures RunBody(w, t, a).0.Count(template) == w.Count(template)
    decreases a, 0
  {
    BodyKeepsCount(w, t, a.body.actions, a.body.end, template);
  }

  lemma {:induction false} RoundKeepsCount(w: World, t: nat, a: Attempt, cause: Option<Exn>, template: Template)
    requires w.Valid() && t < |w.txs| && AttemptAvoids(a, template.id)
    ensures Round(w, t, a, cause).0.Count(template) == w.Count(template)
    decreases a, 1
  {
    AttemptKeepsCount(Begin(w, t, a.others), t, a, template);
    var (w1, o) := RunBody(Begin(w, t, a.others), t, a);
    if !o.Running? {
      FinishKeepsCount(w1, t, o, a.granted, cause);
    }
  }

  lemma FinishKeepsCount(w: World, t: nat, o: Outcome, granted: bool, cause: Option<Exn>)
    requires w.Valid() && t < |w.txs| && !o.Running?
    ensures Finish(w, t, o, granted, cause).0.counts == w.counts
  {
  }

  lemma {:induction false} OtherLoopKeepsCount(w: World, t: nat, called: Template, attempts: seq<Attempt>,
                                               cause: Option<Exn>, template: Template)
    requires w.Valid() && t < |w.txs| && called.id != template.id && AvoidsAll(attempts, template.id)
    ensures Loop(w, t, called, attempts, cause).0.Count(template) == w.Count(template)
    decreases attempts, 0
  {
    if MayTry(w, called) && attempts != [] {
      RoundKeepsCount(w, t, attempts[0], cause, template);
      var (w', escapes, cause') := Round(w, t, attempts[0], cause);
      if escapes.None? {
        OtherLoopKeepsCount(Counted(w', called), t, called, attempts[1..], cause', template);
      }
    }
  }

  lemma {:induction false} JoiningRunKeepsCount(w: World, t: nat, called: Template, attempts: seq<Attempt>,
                                                template: Template)
    requires w.Valid() && Usable(w, called) == Some(t) && AvoidsAll(attempts, template.id)
    ensures RunTemplate(w, called, attempts).0.Count(template) == w.Count(template)
    decreases attempts, 1
  {
    if attempts != [] {
      AttemptKeepsCount(w, t, attempts[0], template);
    }
  }

  lemma {:induction false} RunKeepsCount(w: World, called: Template, attempts: seq<Attempt>, template: Template)
    requires w.Valid() && called.id != template.id && AvoidsAll(attempts, template.id)
    ensures RunTemplate(w, called, attempts).0.Count(template) == w.Count(template)
    decreases attempts, 2
  {
    match Usable(w, called)
    case Some(t) => JoiningRunKeepsCount(w, t, called, attempts, template);
    case None => OtherLoopKeepsCount(Entered(w, called), |w.txs|, called, attempts, None, template);
  }

  /** A check that a caller can make: the template is called nowhere in its own bodies. */
  lemma {:induction false} AvoidingKeepsCount(w: World, t: nat, template: Template, attempts: seq<Attempt>,
                                              cause: Option<Exn>)
    requires w.Valid() && t < |w.txs| && AvoidsAll(attempts, template.id)
    ensures KeepsCount(w, t, template, attempts, cause)
    decreases attempts
  {
    if MayTry(w, template) && attempts != [] {
      RoundKeepsCount(w, t, attempts[0], cause, template);
      var (w', escapes, cause') := Round(w, t, attempts[0], cause);
      if escapes.None? {
        AvoidingKeepsCount(Counted(w', template), t, template, attempts[1..], cause');
      }
    }
  }

  /** Or: every called template joins, this one included. */
  lemma {:induction false} JoiningKeepsCount(w: World, t: nat, template: Template, attempts: seq<Attempt>,
                                             cause: Option<Exn>)
    requires Current(w, t, true) && forall a | a in attempts :: JoinsAttempt(a)
    ensures KeepsCount(w, t, template, attempts, cause)
    decreases attempts
  {
    if MayTry(w, template) && attempts != [] {
      JoiningAttempt(Begin(w, t, attempts[0].others), t, attempts[0], true);
      RoundLives(w, t, attempts[0], cause);
      var (w', escapes, cause') := Round(w, t, attempts[0], cause);
      if escapes.None? {
        JoiningKeepsCount(Counted(w', template), t, template, attempts[1..], cause');
      }
    }
  }

  // ---------- the count, turn by turn ----------

  /** The count at every turn of the loop, the last one included, at which the guard or an attempt ends it. */
  function TurnCounts(w: World, t: nat, template: Template, attempts: seq<Attempt>, cause: Option<Exn>):
      (counts: seq<Int32>)
    requires w.Valid() && t < |w.txs|
    ensures counts != [] && counts[0] == w.Count(template)
    decreases attempts
  {
    [w.Count(template)]
    + if !MayTry(w, template) || attempts == [] then []
      else
        var (w', escapes, cause') := Round(w, t, attempts[0], cause);
        if escapes.Some? then [] else TurnCounts(Counted(w', template), t, template, attempts[1..], cause')
  }

  /** The loop ends at its guard, or the script ends there. */
  predicate EndsBetween(w: World, t: nat, template: Template, attempts: seq<Attempt>, cause: Option<Exn>)
    requires w.Valid() && t < |w.txs|
    decreases attempts
  {
    MayTry(w, template) && attempts != [] ==>
      var (w', escapes, cause') := Round(w, t, attempts[0], cause);
      escapes.None? && EndsBetween(Counted(w', template), t, template, attempts[1..], cause')
  }

  lemma {:induction false} EveryRoundIsATurn(w: World, t: nat, template: Template, attempts: seq<Attempt>,
                                             cause: Option<Exn>)
    requires w.Valid() && t < |w.txs|
    ensures |TurnCounts(w, t, template, attempts, cause)|
         == Rounds(w, t, template, attempts, cause) + if EndsBetween(w, t, template, attempts, cause) then 1 else 0
    decreases attempts
  {
    if MayTry(w, template) && attempts != [] {
      var (w', escapes, cause') := Round(w, t, attempts[0], cause);
      if escapes.None? {
        EveryRoundIsATurn(Counted(w', template), t, template, attempts[1..], cause');
      }
    }
  }

  /** first, first + 1, first + 2, ..., wrapped. */
  predicate CountUp(counts: seq<Int32>, first: nat) {
    counts == [] || (counts[0] == Wrap32(first) && CountUp(counts[1..], first + 1))
  }

  lemma {:induction false} CountUpAt(counts: seq<Int32>, first: nat, i: nat)
    requires CountUp(counts, first) && i < |counts|
    ensures counts[i] == Wrap32(first + i)
  {
    if i > 0 {
      CountUpAt(counts[1..], first + 1, i - 1);
    }
  }

  lemma {:induction false} CountUpPrefix(counts: seq<Int32>, first: nat, n: nat)
    requires CountUp(counts, first) && n <= |counts|
    ensures CountUp(counts[..n], first)
  {
    if n > 0 {
      CountUpPrefix(counts[1..], first + 1, n - 1);
      assert counts[..n][1..] == counts[1..][..n - 1];
    }
  }

  /** The count goes up by one from turn to turn, wrapped, if and only if every attempt that asks for
      another one leaves it alone. */
  lemma {:induction false} CountsUpExactly(w: World, t: nat, template: Template, attempts: seq<Attempt>,
                                           cause: Option<Exn>, first: nat)
    requires w.Valid() && t < |w.txs| && w.Count(template) == Wrap32(first)
    ensures CountUp(TurnCounts(w, t, template, attempts, cause), first) <==> KeepsCount(w, t, template, attempts, cause)
    decreases attempts
  {
    if MayTry(w, template) && attempts != [] {
      var (w', escapes, cause') := Round(w, t, attempts[0], cause);
      if escapes.None? {
        var w2 := Counted(w', template);
        var rest := TurnCounts(w2, t, template, attempts[1..], cause');
        OneMoreCount(first, w'.Count(template), rest);
        if w'.Count(template) == w.Count(template) {
          NextCount(first);
          CountsUpExactly(w2, t, template, attempts[1..], cause', first + 1);
        }
      }
    }
  }

  lemma NextCount(first: nat)
    ensures Wrap32(Wrap32(first) + 1) == Wrap32(first + 1)
  {
    WrapsOnce(first, 1);
  }

  /** One turn more: `count` is what the attempt before it left. */
  lemma OneMoreCount(first: nat, count: Int32, rest: seq<Int32>)
    requires rest != [] && rest[0] == Wrap32(count + 1)
    ensures CountUp([Wrap32(first)] + rest, first) <==> count == Wrap32(first) && CountUp(rest, first + 1)
  {
    assert ([Wrap32(first)] + rest)[1..] == rest;
    WrapsApart(count, first);
  }

  lemma WrapsApart(count: Int32, first: nat)
    ensures Wrap32(count + 1) == Wrap32(first + 1) <==> count == Wrap32(first)
  {
    WrapsOnce(first, 1);
  }

  // ---------- the attempt bound ----------

  /** The guard fails exactly after retryCount + 1 rounds, and never for Integer.MAX_VALUE. */
  lemma GuardUnderWrap(done: nat, retryCount: RetryCount)
    requires retryCount < MAX_INT ==> done <= retryCount + 1
    ensures Wrap32(Wrap32(done + 1) - 1) > retryCount <==> retryCount < MAX_INT && done == retryCount + 1
    ensures Wrap32(Wrap32(done + 1) + 1) == Wrap32(done + 2)
  {
    WrapsOnce(done + 1, -1);
    WrapsOnce(done + 1, 1);
  }

  /** What is left of the bound after `done` attempts. */
  lemma {:induction false} LoopBound(w: World, t: nat, template: Template, attempts: seq<Attempt>, cause: Option<Exn>,
                                     done: nat)
    requires w.Valid() && t < |w.txs| && KeepsCount(w, t, template, attempts, cause)
    requires w.Count(template) == Wrap32(done + 1)
    requires template.retryCount < MAX_INT ==> done <= template.retryCount + 1
    ensures var made := Rounds(w, t, template, attempts, cause);
            if template.retryCount < MAX_INT then
              && done + made <= template.retryCount + 1
              && (GivesUp(w, t, template, attempts, cause) ==> done + made == template.retryCount + 1)
            else
              !GivesUp(w, t, template, attempts, cause)
    decreases attempts
  {
    GuardUnderWrap(done, template.retryCount);
    if MayTry(w, template) && attempts != [] {
      var (w', escapes, cause') := Round(w, t, attempts[0], cause);
      if escapes.None? {
        LoopBound(Counted(w', template), t, template, attempts[1..], cause', done + 1);
      }
    }
  }

  /** Attempt bound of every owning run whose attempts leave the count alone: below Integer.MAX_VALUE at
      most retryCount + 1 attempts are made, and exactly that many by a run that gives up.  With
      Integer.MAX_VALUE a run never gives up. */
  lemma AttemptBound(w: World, template: Template, attempts: seq<Attempt>)
    requires Owns(w, template) && KeepsCount(Entered(w, template), |w.txs|, template, attempts, None)
    ensures var (t, w1) := (|w.txs|, Entered(w, template));
            var (w', o) := RunTemplate(w, template, attempts);
            && w.log <= w'.log
            && var made := Attempts(LogOf(t, w, w'));
            if template.retryCount < MAX_INT then
              && made <= template.retryCount + 1
              && (GivesUp(w1, t, template, attempts, None) ==> made == template.retryCount + 1)
            else
              !GivesUp(w1, t, template, attempts, None)
  {
    LoopBound(Entered(w, template), |w.txs|, template, attempts, None, 0);
    RunLives(w, template, attempts);
    var w' := RunTemplate(w, template, attempts).0;
    assert ([Started(|w.txs|)] + LogOf(|w.txs|, Entered(w, template), w'))[1..]
           == LogOf(|w.txs|, Entered(w, template), w');
  }

  /** So it holds wherever the template is called nowhere in its own bodies. */
  lemma BoundWithoutReentry(w: World, template: Template, attempts: seq<Attempt>)
    requires Owns(w, template) && AvoidsAll(attempts, template.id) && template.retryCount < MAX_INT
    ensures var (w', o) := RunTemplate(w, template, attempts);
            && w.log <= w'.log
            && var made := Attempts(LogOf(|w.txs|, w, w'));
            && made <= template.retryCount + 1
            && (GivesUp(Entered(w, template), |w.txs|, template, attempts, None) ==> made == template.retryCount + 1)
  {
    AvoidingKeepsCount(Entered(w, template), |w.txs|, template, attempts, None);
    AttemptBound(w, template, attempts);
  }

  // ---------- no bound ----------

  /** The body ended with o: it asks for another attempt. */
  predicate AsksAgain(w: World, t: nat, o: Outcome, granted: bool)
    requires t < |w.txs|
  {
    match o
    case Returned(_) => w.txs[t].status != Aborted && !CommitSucceeds(w, t, granted)
    case Threw(ex) => IsRetried(ex)
    case Running => false
  }

  /** Every attempt of the loop ends in a conflict, a load failure, a retry or a refused commit, as far as
      the script goes; it may end inside an attempt. */
  predicate KeepsAsking(w: World, t: nat, template: Template, attempts: seq<Attempt>, cause: Option<Exn>)
    requires w.Valid() && t < |w.txs|
    decreases attempts
  {
    attempts != [] ==>
      var (w1, o) := RunBody(Begin(w, t, attempts[0].others), t, attempts[0]);
      || o.Running?
      || (&& AsksAgain(w1, t, o, attempts[0].granted)
          && var (w', _, cause') := Round(w, t, attempts[0], cause);
             KeepsAsking(Counted(w', template), t, template, attempts[1..], cause'))
  }

  /** With Integer.MAX_VALUE every owning run keeps going exactly as long as that goes on. */
  lemma RetriesForever(w: World, template: Template, attempts: seq<Attempt>)
    requires Owns(w, template) && template.retryCount == MAX_INT
    ensures RunTemplate(w, template, attempts).1 == Running
       <==> KeepsAsking(Entered(w, template), |w.txs|, template, attempts, None)
  {
    LoopsWhileAsked(Entered(w, template), |w.txs|, template, attempts, None);
  }

  lemma {:induction false} LoopsWhileAsked(w: World, t: nat, template: Template, attempts: seq<Attempt>,
                                           cause: Option<Exn>)
    requires w.Valid() && t < |w.txs| && template.retryCount == MAX_INT
    ensures Loop(w, t, template, attempts, cause).1 == Running <==> KeepsAsking(w, t, template, attempts, cause)
    decreases attempts
  {
    if attempts != [] {
      RoundAsks(w, t, attempts[0], cause);
      var (w', escapes, cause') := Round(w, t, attempts[0], cause);
      if escapes.None? {
        LoopsWhileAsked(Counted(w', template), t, template, attempts[1..], cause');
      }
    }
  }

  lemma RoundAsks(w: World, t: nat, a: Attempt, cause: Option<Exn>)
    requires w.Valid() && t < |w.txs|
    ensures var (w1, o) := RunBody(Begin(w, t, a.others), t, a);
            var escapes := Round(w, t, a, cause).1;
            && (escapes.None? <==> AsksAgain(w1, t, o, a.granted))
            && (escapes == Some(Running) <==> o.Running?)
  {
  }

  // ---------- getAttemptCount ----------

  /** What `getAttemptCount` shows at the beginning of the attempts of a run; a joining run makes one. */
  function ShownCounts(w: World, template: Template, attempts: seq<Attempt>): (shown: seq<Int32>)
    requires w.Valid()
  {
    match Usable(w, template)
    case Some(t) => if attempts == [] then [] else [w.Count(template)]
    case None =>
      EveryRoundIsATurn(Entered(w, template), |w.txs|, template, attempts, None);
      TurnCounts(Entered(w, template), |w.txs|, template, attempts, None)[..AttemptsMade(w, template, attempts)]
  }

  /** The comment promises that the count is always larger than zero.  In an owning run attempt n sees
      the number n, wrapped, so that holds up to attempt 2^31 - 1, unless an attempt that asks for
      another one has changed the count.  A joining run shows the field as it is, so there the promise
      holds if it did before; a new template shows 0. */
  lemma AttemptCountIsPositive(w: World, template: Template, attempts: seq<Attempt>)
    requires w.Valid()
    requires Usable(w, template).None? ==> KeepsCount(Entered(w, template), |w.txs|, template, attempts, None)
    ensures var shown := ShownCounts(w, template, attempts);
            && (Usable(w, template).None? ==> CountUp(shown, 1))
            && ((forall count | count in shown :: count > 0)
                <==> if Usable(w, template).None? then |shown| <= MAX_INT else attempts == [] || w.Count(template) > 0)
  {
    match Usable(w, template)
    case Some(t) =>
      if attempts != [] {
        assert ShownCounts(w, template, attempts) == [w.Count(template)];
        assert w.Count(template) in ShownCounts(w, template, attempts);
      }
    case None => OwningCountsArePositive(w, template, attempts);
  }

  lemma OwningCountsArePositive(w: World, template: Template, attempts: seq<Attempt>)
    requires Owns(w, template) && KeepsCount(Entered(w, template), |w.txs|, template, attempts, None)
    ensures var shown := ShownCounts(w, template, attempts);
            CountUp(shown, 1) && ((forall count | count in shown :: count > 0) <==> |shown| <= MAX_INT)
  {
    var (t, w1) := (|w.txs|, Entered(w, template));
    CountsUpExactly(w1, t, template, attempts, None, 1);
    EveryRoundIsATurn(w1, t, template, attempts, None);
    CountUpPrefix(TurnCounts(w1, t, template, attempts, None), 1, AttemptsMade(w, template, attempts));
    PositiveUpToMax(ShownCounts(w, template, attempts));
  }

  lemma PositiveUpToMax(shown: seq<Int32>)
    requires CountUp(shown, 1)
    ensures (forall count | count in shown :: count > 0) <==> |shown| <= MAX_INT
  {
    if |shown| > MAX_INT {
      CountUpAt(shown, 1, MAX_INT);
      assert shown[MAX_INT] in shown;
    } else {
      forall count | count in shown ensures count > 0 {
        var i: nat :| i < |shown| && shown[i] == count;
        CountUpAt(shown, 1, i);
      }
    }
  }

  /** The field after a run whose bodies call the template nowhere: untouched by a joining run, otherwise
      the wrapped number of the attempt that ended it, or of the one that would have been next. */
  lemma AttemptCountAfter(w: World, template: Template, attempts: seq<Attempt>)
    requires w.Valid() && AvoidsAll(attempts, template.id)
    ensures var (w', o) := RunTemplate(w, template, attempts);
            w'.Count(template) ==
            if Usable(w, template).Some? then w.Count(template)
            else Wrap32(AttemptsMade(w, template, attempts)
                        + if EndsBetween(Entered(w, template), |w.txs|, template, attempts, None) then 1 else 0)
  {
    match Usable(w, template)
    case Some(t) => JoiningRunKeepsCount(w, t, template, attempts, template);
    case None => OwningCountAfter(w, template, attempts);
  }

  lemma OwningCountAfter(w: World, template: Template, attempts: seq<Attempt>)
    requires Owns(w, template) && AvoidsAll(attempts, template.id)
    ensures RunTemplate(w, template, attempts).0.Count(template) ==
            Wrap32(AttemptsMade(w, template, attempts)
                   + if EndsBetween(Entered(w, template), |w.txs|, template, attempts, None) then 1 else 0)
  {
    var (t, w1) := (|w.txs|, Entered(w, template));
    var counts := TurnCounts(w1, t, template, attempts, None);
    RunCountIsLoopCount(w, template, attempts);
    LoopCountAfter(w1, t, template, attempts, None);
    AvoidingKeepsCount(w1, t, template, attempts, None);
    CountsUpExactly(w1, t, template, attempts, None, 1);
    CountUpAt(counts, 1, |counts| - 1);
    EveryRoundIsATurn(w1, t, template, attempts, None);
  }

  lemma RunCountIsLoopCount(w: World, template: Template, attempts: seq<Attempt>)
    requires Owns(w, template)
    ensures RunTemplate(w, template, attempts).0.Count(template)
         == Loop(Entered(w, template), |w.txs|, template, attempts, None).0.Count(template)
  {
  }

  lemma {:induction false} LoopCountAfter(w: World, t: nat, template: Template, attempts: seq<Attempt>,
                                          cause: Option<Exn>)
    requires w.Valid() && t < |w.txs| && AvoidsAll(attempts, template.id)
    ensures var counts := TurnCounts(w, t, template, attempts, cause);
            Loop(w, t, template, attempts, cause).0.Count(template) == counts[|counts| - 1]
    decreases attempts
  {
    if MayTry(w, template) && attempts != [] {
      RoundKeepsCount(w, t, attempts[0], cause, template);
      var (w', escapes, cause') := Round(w, t, attempts[0], cause);
      if escapes.None? {
        LoopCountAfter(Counted(w', template), t, template, attempts[1..], cause');
      }
    }
  }

  /** The input that breaks the promise first: a new template that joins. */
  lemma JoiningTemplateShowsZero()
    ensures var w := Entered(World(map[], [], None, [], map[]), Template(0, 0, false, false));
            var attempt := Attempt(map[], Body([], Return("")), true);
            ShownCounts(w, Template(1, 0, false, false), [attempt]) == [0]
  {
  }

  // ---------- re-entry ----------

  /** One attempt that runs its own template once more on a transaction of its own and then fails to
      load something. */
  function Reentering(template: Template): Attempt {
    var inner := Attempt(map[], Body([], Return("")), true);
    Attempt(map[], Body([Call(template, [inner], true)], Throw(LoadFailure(0))), true)
  }

  /** Where the bound fails: the inner run resets the
      counter that the outer loop goes by, so from a retry count of 1 on no number of attempts is enough. */
  lemma ReentryNeverGivesUp(w: World, template: Template, attempts: seq<Attempt>)
    requires w.Valid() && template.ignoreThreadLocal && template.retryCount >= 1
    requires forall a | a in attempts :: a == Reentering(template)
    ensures RunTemplate(w, template, attempts).1 == Running
  {
    ReenteringLoop(Entered(w, template), |w.txs|, template, attempts, None);
  }

  lemma {:induction false} ReenteringLoop(w: World, t: nat, template: Template, attempts: seq<Attempt>,
                                          cause: Option<Exn>)
    requires w.Valid() && t < |w.txs| && template.ignoreThreadLocal && template.retryCount >= 1
    requires 1 <= w.Count(template) <= 2 && forall a | a in attempts :: a == Reentering(template)
    ensures Loop(w, t, template, attempts, cause).1 == Running
    decreases attempts
  {
    if attempts != [] {
      assert attempts[0] in attempts;
      assert Wrap32(w.Count(template) - 1) == w.Count(template) - 1;
      ReenteringRound(w, t, template, cause);
      var (w', escapes, cause') := Round(w, t, attempts[0], cause);
      assert escapes == None;
      assert forall a | a in attempts[1..] :: a in attempts;
      ReenteringLoop(Counted(w', template), t, template, attempts[1..], cause');
    }
  }

  lemma ReenteringRound(w: World, t: nat, template: Template, cause: Option<Exn>)
    requires w.Valid() && t < |w.txs| && template.ignoreThreadLocal
    ensures var (w', escapes, _) := Round(w, t, Reentering(template), cause);
            escapes == None && w'.Valid() && t < |w'.txs| && w'.Count(template) == 1
  {
    var a := Reentering(template);
    var call := a.body.actions[0];
    var w0 := Begin(w, t, map[]);
    InnerRunCommits(w0, template, call.attempts[0]);
    var (w1, o) := RunTemplate(w0, template, call.attempts);
    assert [call][1..] == [];
    assert RunActions(w1, t, [], a.body.end) == (w1, Threw(LoadFailure(0)));
    assert RunBody(w0, t, a) == (w1, Threw(LoadFailure(0)));
  }

  lemma InnerRunCommits(w: World, template: Template, inner: Attempt)
    requires w.Valid() && template.ignoreThreadLocal && inner == Attempt(map[], Body([], Return("")), true)
    ensures var (w', o) := RunTemplate(w, template, [inner]); o == Returned("") && w'.Count(template) == 1
  {
    var (entered, t) := (Entered(w, template), |w.txs|);
    var w0 := Begin(entered, t, map[]);
    assert Wrap32(0) == 0;
    assert RunBody(w0, t, inner) == (w0, Returned(""));
    assert CommitSucceeds(w0, t, true);
    assert Round(entered, t, inner, None) == (Commit(w0, t), Some(Returned("")), None);
    assert Loop(entered, t, template, [inner], None) == (Commit(w0, t), Returned(""));
  }
}
