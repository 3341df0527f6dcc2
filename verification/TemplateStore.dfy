/** What any run leaves in the store, whether its calls join or not. */
module TemplateStore {
  import opened JavaInt
  import opened Wrappers
  import opened Stm
  import opened TemplateSpec
  import opened Templates
  import opened TemplateReach
  import opened TemplateLifecycle

  /** The commits that the log records, one after the other: those of other threads, and the buffers of
      the transactions that were committed. */
  function Stored(store: Store, events: seq<Event>): Store
    decreases events
  {
    if events == [] then store else Stored(StoredOne(store, events[0]), events[1..])
  }

  function StoredOne(store: Store, e: Event): Store {
    match e
    case Began(_, _, others) => store + others
    case CommittedTx(_, buffer) => store + buffer
    case _ => store
  }

  lemma {:induction false} StoredConcat(store: Store, a: seq<Event>, b: seq<Event>)
    ensures Stored(store, a + b) == Stored(Stored(store, a), b)
    decreases a
  {
    if a == [] {
      assert a + b == b;
    } else {
      assert (a + b)[0] == a[0] && (a + b)[1..] == a[1..] + b;
      StoredConcat(StoredOne(store, a[0]), a[1..], b);
    }
  }

  ghost predicate Recorded(w: World, w': World) {
    w.log <= w'.log && w'.store == Stored(w.store, Suffix(w, w'))
  }

  lemma RecordedTwice(w: World, w1: World, w2: World)
    requires Recorded(w, w1) && Recorded(w1, w2)
    ensures Recorded(w, w2)
  {
    assert Suffix(w, w2) == Suffix(w, w1) + Suffix(w1, w2);
    StoredConcat(w.store, Suffix(w, w1), Suffix(w1, w2));
  }

  lemma RecordedSame(w: World, w': World)
    requires w.log == w'.log && w.store == w'.store
    ensures Recorded(w, w')
  {
  }

  lemma RecordedOne(w: World, w': World, e: Event)
    requires w'.log == w.log + [e] && w'.store == Stored(w.store, [e])
    ensures Recorded(w, w')
  {
    assert Suffix(w, w') == [e];
  }

  lemma {:induction false} StoredNothing(store: Store, events: seq<Event>)
    requires forall i | 0 <= i < |events| :: !events[i].Began? && !events[i].CommittedTx?
    ensures Stored(store, events) == store
    decreases events
  {
    if events != [] {
      StoredNothing(store, events[1..]);
    }
  }

  lemma BeginRecorded(w: World, t: nat, others: Store)
    requires t < |w.txs|
    ensures Recorded(w, Begin(w, t, others))
  {
    var e := Began(t, w.IsActive(t), others);
    assert [e][1..] == [];
    RecordedOne(w, Begin(w, t, others), e);
  }

  lemma FinishRecorded(w: World, t: nat, o: Outcome, granted: bool, cause: Option<Exn>)
    requires t < |w.txs| && !o.Running?
    ensures Recorded(w, Finish(w, t, o, granted, cause).0)
  {
    var w' := Finish(w, t, o, granted, cause).0;
    var events := FinishEvents(w, t, o, granted);
    FinishLog(w, t, o, granted, cause);
    assert Suffix(w, w') == events;
    if events[0].CommittedTx? {
      assert events[1..] == [];
    } else {
      StoredNothing(w.store, events);
    }
  }

  lemma {:induction false} BodyRecorded(w: World, t: nat, actions: seq<Action>, end: End)
    requires w.Valid() && t < |w.txs|
    ensures Recorded(w, RunActions(w, t, actions, end).0)
    decreases actions
  {
    if actions == [] {
      RecordedSame(w, w);
    } else {
      match actions[0] {
        case Do(op, fault) =>
          RecordedSame(w, w);
          var r := Operate(w, t, op, fault);
          if r.Ok? {
            RecordedSame(w, r.value);
            BodyRecorded(r.value, t, actions[1..], end);
            RecordedTwice(w, r.value, RunActions(r.value, t, actions[1..], end).0);
          }
        case AbortTx =>
          var w1 := Abort(w, t, BodyAborted(t));
          assert [BodyAborted(t)][1..] == [];
          RecordedOne(w, w1, BodyAborted(t));
          BodyRecorded(w1, t, actions[1..], end);
          RecordedTwice(w, w1, RunActions(w1, t, actions[1..], end).0);
        case Call(template, attempts, _) =>
          RunRecorded(w, template, attempts);
          var (w1, o) := RunTemplate(w, template, attempts);
          if o.Returned? {
            BodyRecorded(w1, t, actions[1..], end);
            RecordedTwice(w, w1, RunActions(w1, t, actions[1..], end).0);
          }
      }
    }
  }

  lemma {:induction false} AttemptRecorded(w: World, t: nat, a: Attempt)
    requires w.Valid() && t < |w.txs|
    ensures Recorded(w, RunBody(w, t, a).0)
    decreases a, 0
  {
    BodyRecorded(w, t, a.body.actions, a.body.end);
  }

  lemma {:induction false} RoundRecorded(w: World, t: nat, a: Attempt, cause: Option<Exn>)
    requires w.Valid() && t < |w.txs|
    ensures Recorded(w, Round(w, t, a, cause).0)
    decreases a, 1
  {
    var w0 := Begin(w, t, a.others);
    var (w1, o) := RunBody(w0, t, a);
    BeginRecorded(w, t, a.others);
    AttemptRecorded(w0, t, a);
    RecordedTwice(w, w0, w1);
    if !o.Running? {
      FinishRecorded(w1, t, o, a.granted, cause);
      RecordedTwice(w, w1, Finish(w1, t, o, a.granted, cause).0);
    }
  }

  lemma {:induction false} LoopRecorded(w: World, t: nat, template: Template, attempts: seq<Attempt>,
                                        cause: Option<Exn>)
    requires w.Valid() && t < |w.txs|
    ensures Recorded(w, Loop(w, t, template, attempts, cause).0)
    decreases attempts, 0
  {
    if !MayTry(w, template) || attempts == [] {
      RecordedSame(w, w);
    } else {
      RoundRecorded(w, t, attempts[0], cause);
      var (w1, escapes, cause') := Round(w, t, attempts[0], cause);
      if escapes.None? {
        var w2 := Counted(w1, template);
        RecordedSame(w1, w2);
        RecordedTwice(w, w1, w2);
        LoopRecorded(w2, t, template, attempts[1..], cause');
        RecordedTwice(w, w2, Loop(w2, t, template, attempts[1..], cause').0);
      }
    }
  }

  /** After any run the store is what it was before, with everything that other threads committed and all
      buffers of committed transactions on top, in the order of the log. */
  lemma {:induction false} RunRecorded(w: World, template: Template, attempts: seq<Attempt>)
    requires w.Valid()
    ensures Recorded(w, RunTemplate(w, template, attempts).0)
    decreases attempts, 1
  {
    match Usable(w, template)
    case Some(t) =>
      if attempts == [] {
        RecordedSame(w, w);
      } else {
        AttemptRecorded(w, t, attempts[0]);
      }
    case None =>
      var w1 := Entered(w, template);
      assert [Started(|w.txs|)][1..] == [];
      RecordedOne(w, w1, Started(|w.txs|));
      LoopRecorded(w1, |w.txs|, template, attempts, None);
      var w2 := Loop(w1, |w.txs|, template, attempts, None).0;
      RecordedTwice(w, w1, w2);
      RecordedSame(w2, RunTemplate(w, template, attempts).0);
      RecordedTwice(w, w2, RunTemplate(w, template, attempts).0);
  }

  /** And the buffer of the run's own transaction is among them exactly once if the run returns, and not
      at all otherwise, whatever its body calls. */
  lemma OwnBufferIfReturned(w: World, template: Template, attempts: seq<Attempt>)
    requires Owns(w, template)
    ensures var (w', o) := RunTemplate(w, template, attempts);
            Recorded(w, w') && Commits(LogOf(|w.txs|, w, w')) == if o.Returned? then 1 else 0
  {
    RunRecorded(w, template, attempts);
    Lifecycle(w, template, attempts);
    AttemptsEnd(Idle, |w.txs|, LogOf(|w.txs|, w, RunTemplate(w, template, attempts).0));
  }
}
