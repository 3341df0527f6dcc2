/** Atomicity of an owning template over whole runs. */
module TemplateAtomicity {
  import opened JavaInt
  import opened Wrappers
  import opened Stm
  import opened TemplateSpec
  import opened Templates
  import opened TemplateProperties
  import opened TemplateFlattening

  // ---------- what a body means without any transaction ----------

  /** The body applied straight to a store that nobody else touches; None where it does not reach
      its end or aborts itself.  Called templates just run their body. */
  function Alone(store: Store, actions: seq<Action>): Option<Store>
    decreases actions
  {
    if actions == [] then Some(store)
    else
      match actions[0]
      case Do(op, fault) =>
        (match Perform(op, Get(store, op.ref))
         case None => None
         case Some(value) => if fault.Some? then None else Alone(store[op.ref := value], actions[1..]))
      case AbortTx => None
      case Call(_, attempts, _) =>
        if attempts == [] then None
        else
          match AloneAttempt(store, attempts[0])
          case None => None
          case Some(store') => Alone(store', actions[1..])
  }

  /** None as well where the body ends with an exception. */
  function AloneAttempt(store: Store, a: Attempt): Option<Store>
    decreases a
  {
    if a.body.end.Throw? then None else Alone(store, a.body.actions)
  }

  /** The store after n rounds in which only the other threads committed. */
  function Others(store: Store, attempts: seq<Attempt>, n: nat): Store
    requires n <= |attempts|
    decreases n
  {
    if n == 0 then store else Others(store + attempts[0].others, attempts[1..], n - 1)
  }

  /** Buffered execution agrees with direct execution on every store that holds the same as the
      snapshot under the references written. */
  lemma {:induction false} BufferedIsAlone(w: World, t: nat, actions: seq<Action>, end: End, store: Store)
    requires Current(w, t, true) && Joins(actions, true)
    requires var (w', o) := RunActions(w, t, actions, end);
             o.Returned? && w'.IsActive(t) && Agree(store, w.txs[t].snapshot, w'.txs[t].buffer.Keys)
    ensures var w' := RunActions(w, t, actions, end).0;
            Alone(store + w.txs[t].buffer, actions) == Some(store + w'.txs[t].buffer)
    decreases actions, 1
  {
    if actions != [] {
      match actions[0] {
        case Do(_, _) => DoIsAlone(w, t, actions, end, store);
        case AbortTx =>
          JoiningBody(w, t, actions, end, true);
          assert false;
        case Call(_, _, _) => CallIsAlone(w, t, actions, end, store);
      }
    }
  }

  lemma {:induction false} DoIsAlone(w: World, t: nat, actions: seq<Action>, end: End, store: Store)
    requires Current(w, t, true) && Joins(actions, true) && actions != [] && actions[0].Do?
    requires var (w', o) := RunActions(w, t, actions, end);
             o.Returned? && w'.IsActive(t) && Agree(store, w.txs[t].snapshot, w'.txs[t].buffer.Keys)
    ensures var w' := RunActions(w, t, actions, end).0;
            Alone(store + w.txs[t].buffer, actions) == Some(store + w'.txs[t].buffer)
    decreases actions, 0
  {
    var op := actions[0].op;
    var w1 := Operate(w, t, op, actions[0].fault).value;
    JoiningBody(w1, t, actions[1..], end, true);
    var before := w.txs[t].buffer;
    var value := Perform(op, Get(w.txs[t].snapshot + before, op.ref)).value;
    assert w1.txs[t].buffer == before[op.ref := value];
    BufferedIsAlone(w1, t, actions[1..], end, store);
    SameOverlay(store, w.txs[t].snapshot, before, op.ref);
    UpdatedOverlay(store, before, op.ref, value);
  }

  /** Two stores that hold the same under a reference still do under the same buffer. */
  lemma SameOverlay(a: Store, b: Store, buffer: Store, ref: Ref)
    requires Get(a, ref) == Get(b, ref)
    ensures Get(a + buffer, ref) == Get(b + buffer, ref)
  {
  }

  lemma UpdatedOverlay(store: Store, buffer: Store, ref: Ref, value: Value)
    ensures (store + buffer)[ref := value] == store + buffer[ref := value]
  {
  }

  lemma {:induction false} CallIsAlone(w: World, t: nat, actions: seq<Action>, end: End, store: Store)
    requires Current(w, t, true) && Joins(actions, true) && actions != [] && actions[0].Call?
    requires var (w', o) := RunActions(w, t, actions, end);
             o.Returned? && w'.IsActive(t) && Agree(store, w.txs[t].snapshot, w'.txs[t].buffer.Keys)
    ensures var w' := RunActions(w, t, actions, end).0;
            Alone(store + w.txs[t].buffer, actions) == Some(store + w'.txs[t].buffer)
    decreases actions, 0
  {
    var a := actions[0].attempts[0];
    var (w1, _) := RunBody(w, t, a);
    JoiningAttempt(w, t, a, true);
    JoiningBody(w1, t, actions[1..], end, AbortTx !in InlinedAttempt(a).actions);
    AttemptIsAlone(w, t, a, store);
    BufferedIsAlone(w1, t, actions[1..], end, store);
  }

  lemma {:induction false} AttemptIsAlone(w: World, t: nat, a: Attempt, store: Store)
    requires Current(w, t, true) && JoinsAttempt(a)
    requires var (w', o) := RunBody(w, t, a);
             o.Returned? && w'.IsActive(t) && Agree(store, w.txs[t].snapshot, w'.txs[t].buffer.Keys)
    ensures var w' := RunBody(w, t, a).0;
            AloneAttempt(store + w.txs[t].buffer, a) == Some(store + w'.txs[t].buffer)
    decreases a
  {
    JoiningAttempt(w, t, a, true);
    BufferedIsAlone(w, t, a.body.actions, a.body.end, store);
  }

  // ---------- one round ----------

  /** Ready for a round: t is in the slot, active, with an empty buffer over the current store. */
  ghost predicate Fit(w: World, t: nat) {
    Current(w, t, true) && w.txs[t].snapshot == w.store && w.txs[t].buffer == map[]
  }

  /** One round: at most the writes of its body, and those as if the body had run by itself on the store
      at commit time. */
  lemma RoundStore(w: World, t: nat, a: Attempt, cause: Option<Exn>)
    requires Fit(w, t) && JoinsAttempt(a)
    ensures var (w', escapes, _) := Round(w, t, a, cause);
            && w'.slot == w.slot && |w'.txs| == |w.txs| && w'.counts == w.counts
            && match escapes {
                 case None => Fit(w', t) && w'.store == w.store + a.others
                 case Some(Returned(v)) =>
                   && a.granted && a.body.end == Return(v)
                   && AloneAttempt(w.store + a.others, a) == Some(w'.store)
                 case Some(o) => o.Threw? && !IsRetried(o.ex) && w'.store == w.store + a.others
               }
  {
    var w1, o := BodyStores(w, t, a, cause);
  }

  /** What the body of an attempt leaves before the attempt is finished. */
  lemma BodyStores(w: World, t: nat, a: Attempt, cause: Option<Exn>) returns (w1: World, o: Outcome)
    requires Fit(w, t) && JoinsAttempt(a)
    ensures !o.Running? && t < |w1.txs| == |w.txs| && w1.Valid() && w1.slot == w.slot && w1.counts == w.counts
    ensures w1.store == w.store + a.others
    ensures Round(w, t, a, cause) == Finish(w1, t, o, a.granted, cause)
    ensures w1.txs[t].status != Committed
    ensures o.Returned? && w1.IsActive(t) ==> a.body.end == Return(o.result)
    ensures o.Returned? && w1.IsActive(t) && CommitSucceeds(w1, t, a.granted) ==>
              AloneAttempt(w1.store, a) == Some(w1.store + w1.txs[t].buffer)
  {
    var w0 := Begin(w, t, a.others);
    w1, o := RunBody(w0, t, a).0, RunBody(w0, t, a).1;
    JoiningAttempt(w0, t, a, true);
    if o.Returned? && w1.IsActive(t) && CommitSucceeds(w1, t, a.granted) {
      AttemptIsAlone(w0, t, a, w1.store);
      AddNothing(w1.store, w0.txs[t].buffer);
    }
  }

  lemma AddNothing(store: Store, buffer: Store)
    requires buffer == map[]
    ensures store + buffer == store
  {
  }

  // ---------- whole runs ----------

  /** What a loop of n attempts leaves in the store. */
  ghost predicate LoopStores(w: World, w': World, o: Outcome, attempts: seq<Attempt>, n: nat) {
    && n <= |attempts| && w'.slot == w.slot && |w'.txs| == |w.txs|
    && match o {
         case Returned(v) =>
           && n > 0 && attempts[n - 1].granted && attempts[n - 1].body.end == Return(v)
           && AloneAttempt(Others(w.store, attempts, n), attempts[n - 1]) == Some(w'.store)
         case _ => w'.store == Others(w.store, attempts, n)
       }
  }

  lemma {:induction false} LoopRuns(w: World, t: nat, template: Template, attempts: seq<Attempt>, cause: Option<Exn>)
    requires Fit(w, t) && forall a | a in attempts :: JoinsAttempt(a)
    ensures var (w', o) := Loop(w, t, template, attempts, cause);
            LoopStores(w, w', o, attempts, Rounds(w, t, template, attempts, cause))
    decreases attempts
  {
    if MayTry(w, template) && attempts != [] {
      var a := attempts[0];
      RoundStore(w, t, a, cause);
      var (w1, escapes, cause') := Round(w, t, a, cause);
      if escapes.None? {
        var w2 := Counted(w1, template);
        LoopRuns(w2, t, template, attempts[1..], cause');
        var (w', o) := Loop(w2, t, template, attempts[1..], cause');
        OneMoreRound(w, w2, w', o, attempts, Rounds(w2, t, template, attempts[1..], cause'));
      } else {
        assert Others(w.store, attempts, 1) == w.store + a.others;
      }
    }
  }

  lemma OneMoreRound(w: World, w2: World, w': World, o: Outcome, attempts: seq<Attempt>, m: nat)
    requires attempts != [] && w2.store == w.store + attempts[0].others
    requires w2.slot == w.slot && |w2.txs| == |w.txs| && LoopStores(w2, w', o, attempts[1..], m)
    ensures LoopStores(w, w', o, attempts, m + 1)
  {
    assert Others(w.store, attempts, m + 1) == Others(w2.store, attempts[1..], m);
    assert m > 0 ==> attempts[1..][m - 1] == attempts[m];
  }

  /** No template to join, and none of the called templates starts a transaction of its own. */
  ghost predicate Owning(w: World, template: Template, attempts: seq<Attempt>) {
    && w.Valid() && !template.ignoreThreadLocal && Usable(w, template).None?
    && forall a | a in attempts :: JoinsAttempt(a)
  }

  /** Atomicity: the run has either returned, and the store is what the body of its last attempt alone
      makes of the store at commit time, or not, and the store is what others made of it. */
  lemma Atomicity(w: World, template: Template, attempts: seq<Attempt>)
    requires Owning(w, template, attempts)
    ensures var (w', o) := RunTemplate(w, template, attempts);
            var n := AttemptsMade(w, template, attempts);
            && (o.Returned? ==> n > 0 && attempts[n - 1].granted && attempts[n - 1].body.end == Return(o.result))
            && (o.Returned? ==> AloneAttempt(Others(w.store, attempts, n), attempts[n - 1]) == Some(w'.store))
            && (!o.Returned? ==> w'.store == Others(w.store, attempts, n))
  {
    LoopRuns(Entered(w, template), |w.txs|, template, attempts, None);
  }

  lemma {:induction false} FlatJoins(actions: seq<Action>, live: bool)
    requires Flat(actions)
    ensures Joins(actions, live)
    decreases actions
  {
    if actions != [] {
      assert actions[0] in actions;
      FlatJoins(actions[1..], live && actions[0] != AbortTx);
    }
  }

  lemma {:induction false} InlinedScriptIsAlike(attempts: seq<Attempt>, store: Store, n: nat)
    requires n <= |attempts|
    ensures |InlinedScript(attempts)| == |attempts|
    ensures forall i | 0 <= i < |attempts| ::
              InlinedScript(attempts)[i] == attempts[i].(body := InlinedAttempt(attempts[i]))
    ensures Others(store, InlinedScript(attempts), n) == Others(store, attempts, n)
    decreases attempts
  {
    if attempts != [] {
      InlinedScriptIsAlike(attempts[1..], store + attempts[0].others, if n == 0 then 0 else n - 1);
    }
  }

  /** Atomicity asks no more than that every call that is reached joins: then the run commits the inlined
      body of its last attempt, or nothing. */
  lemma AtomicIfReachedCallsJoin(w: World, template: Template, attempts: seq<Attempt>)
    requires w.Valid() && !template.ignoreThreadLocal && Usable(w, template).None? && RunJoins(w, template, attempts)
    ensures var (w', o) := RunTemplate(w, template, attempts);
            var n := AttemptsMade(w, template, attempts);
            && n <= |attempts|
            && (o.Returned? ==>
                  && n > 0 && attempts[n - 1].granted && InlinedAttempt(attempts[n - 1]).end == Return(o.result)
                  && Alone(Others(w.store, attempts, n), InlinedAttempt(attempts[n - 1]).actions) == Some(w'.store))
            && (!o.Returned? ==> w'.store == Others(w.store, attempts, n))
  {
    var flat := InlinedScript(attempts);
    LoopFlattens(Entered(w, template), |w.txs|, template, attempts, None);
    assert RunTemplate(w, template, attempts) == RunTemplate(w, template, flat);
    InlinedScriptIsFlat(attempts);
    forall a | a in flat ensures JoinsAttempt(a) {
      FlatJoins(a.body.actions, true);
    }
    Atomicity(w, template, flat);
    InlinedScriptIsAlike(attempts, w.store, 0);
    InlinedScriptIsAlike(attempts, w.store, AttemptsMade(w, template, attempts));
  }

  /** What breaks atomicity: a body that aborts its transaction and then calls a template.  The inner
      template starts and commits its own transaction, so its write stays although the outer run
      throws. */
  lemma WriteOutlivesSelfAbort()
    ensures var template := Template(0, 0, false, false);
            var outer := Attempt(map[], Body([AbortTx, Call(template, [Writer()], true)], Return("")), true);
            var (w', o) := RunTemplate(World(map[], [], None, [], map[]), template, [outer]);
            o == Threw(AbortedException) && w'.store == map[7 := Text("kept")]
  {
    var template := Template(0, 0, false, false);
    var call := Call(template, [Writer()], true);
    var outer := Attempt(map[], Body([AbortTx, call], Return("")), true);
    var w := Entered(World(map[], [], None, [], map[]), template);
    var w0 := Begin(w, 0, map[]);
    var w1 := Abort(w0, 0, BodyAborted(0));
    WriterCommits(w1, template);
    var w2 := RunTemplate(w1, template, [Writer()]).0;
    assert [AbortTx, call][1..] == [call] && [call][1..] == [];
    assert RunActions(w2, 0, [], Return("")) == (w2, Returned(""));
    assert RunActions(w1, 0, [call], Return("")) == (w2, Returned(""));
    assert RunBody(w0, 0, outer) == (w2, Returned(""));
    assert Wrap32(0) == 0;
    var w3 := Abort(FailedWith(w2, 0, AbortedException), 0, TemplateAborted(0));
    assert Round(w, 0, outer, None) == (w3, Some(Threw(AbortedException)), None);
    assert Loop(w, 0, template, [outer], None) == (w3, Threw(AbortedException));
  }

  /** An attempt that writes one reference. */
  function Writer(): Attempt {
    Attempt(map[], Body([Do(Swap(7, Text("kept")), None)], Return("")), true)
  }

  lemma WriterCommits(w: World, template: Template)
    requires w.Valid() && Usable(w, template).None? && !template.readonly
    ensures var (w', o) := RunTemplate(w, template, [Writer()]);
            && o == Returned("") && w'.store == w.store[7 := Text("kept")]
            && |w'.txs| == |w.txs| + 1 && w'.txs[..|w.txs|] == w.txs
  {
    var (entered, t) := (Entered(w, template), |w.txs|);
    var w0 := Begin(entered, t, map[]);
    var w1 := Operate(w0, t, Swap(7, Text("kept")), None).value;
    assert Writer().body.actions[1..] == [];
    assert RunActions(w1, t, [], Return("")) == (w1, Returned(""));
    assert RunBody(w0, t, Writer()) == (w1, Returned(""));
    CommitsItsWrite(w, w0, w1, t);
    assert Wrap32(0) == 0;
    assert Round(entered, t, Writer(), None) == (Commit(w1, t), Some(Returned("")), None);
    assert Loop(entered, t, template, [Writer()], None) == (Commit(w1, t), Returned(""));
  }

  lemma CommitsItsWrite(w: World, w0: World, w1: World, t: nat)
    requires t == |w.txs| == |w0.txs| - 1 == |w1.txs| - 1 && w0.txs[..t] == w1.txs[..t] == w.txs
    requires w0.store == w1.store == w1.txs[t].snapshot == w.store && w1.txs[t].buffer == map[7 := Text("kept")]
    ensures CommitSucceeds(w1, t, true)
    ensures Commit(w1, t).store == w.store[7 := Text("kept")] && Commit(w1, t).txs[..t] == w.txs
  {
  }
}
